/**
 * What the loan engine's formulas mean: the payment amortizes the loan exactly,
 * the simulated balance stays between zero and the principal, and an extra
 * payment never makes the simulated payoff slower than the scheduled term.
 */
module FinanceProofs {
  import opened Optional
  import opened Numbers
  import opened Finance

  // ---- the payment formula ----

  /** The payment is -Infinity exactly when `(1 + r)^n` is 1 for a non-zero
      rate: a monthly rate of -2 (an annual rate of -2400%) over an even term. */
  lemma PaymentInfiniteExactly(principal: real, annualRate: real, termMonths: int)
    ensures MonthlyPayment(principal, annualRate, termMonths) == NegInf <==>
              principal > 0.0 && termMonths > 0 && annualRate == -2400.0 && termMonths % 2 == 0
  {
    if principal > 0.0 && termMonths > 0 && annualRate != 0.0 {
      var r := MonthlyRate(annualRate);
      PowIsOne(1.0 + r, termMonths);
      assert 1.0 + r == -1.0 <==> annualRate == -2400.0;
    }
  }

  /** `r * B(k) = r * P * (1+r)^k - p * ((1+r)^k - 1)`: the closed form of the
      scheduled balance, multiplied through by the rate. */
  lemma {:induction false} ScheduledBalanceClosedForm(principal: real, r: real, p: real, k: nat)
    ensures r * ScheduledBalance(principal, r, p, k) ==
              r * principal * Pow(1.0 + r, k) - p * (Pow(1.0 + r, k) - 1.0)
  {
    if k > 0 {
      ScheduledBalanceClosedForm(principal, r, p, k - 1);
      var x := 1.0 + r;
      var g := Pow(x, k - 1);
      var b := ScheduledBalance(principal, r, p, k - 1);
      assert Pow(x, k) == x * g;
      calc {
        r * ScheduledBalance(principal, r, p, k);
        r * (b * x - p);
        x * (r * b) - r * p;
        x * (r * principal * g - p * (g - 1.0)) - r * p;
        r * principal * (x * g) - p * (x * g - x + r);
        r * principal * (x * g) - p * (x * g - 1.0);
      }
    }
  }

  /** With no interest the scheduled balance falls by one payment a month. */
  lemma {:induction false} ScheduledBalanceNoInterest(principal: real, p: real, k: nat)
    ensures ScheduledBalance(principal, 0.0, p, k) == principal - k as real * p
  {
    if k > 0 {
      ScheduledBalanceNoInterest(principal, p, k - 1);
    }
  }

  /** With `p = P * (r * g / (g - 1))`, `r * P * g - p * (g - 1)` is zero. */
  lemma AnnuityCancels(principal: real, r: real, g: real, p: real)
    requires g != 1.0 && p == principal * (r * g / (g - 1.0))
    ensures r * principal * g - p * (g - 1.0) == 0.0
  {
    var f := r * g / (g - 1.0);
    assert f * (g - 1.0) == r * g;
    assert p * (g - 1.0) == principal * (f * (g - 1.0));
  }

  /** The payment the formula gives pays the loan off exactly at the end of the term. */
  lemma PaymentAmortizes(principal: real, annualRate: real, termMonths: int)
    requires principal > 0.0 && termMonths > 0
    requires MonthlyPayment(principal, annualRate, termMonths).Finite?
    ensures ScheduledBalance(principal, MonthlyRate(annualRate),
              MonthlyPayment(principal, annualRate, termMonths).value, termMonths) == 0.0
  {
    var r := MonthlyRate(annualRate);
    var p := MonthlyPayment(principal, annualRate, termMonths).value;
    if annualRate == 0.0 {
      assert r == 0.0 && p == principal / termMonths as real;
      QuotientAmortizes(principal, termMonths);
    } else {
      var g := Pow(1.0 + r, termMonths);
      assert g != 1.0 && p == principal * (r * g / (g - 1.0));
      AnnuityAmortizes(principal, r, termMonths, g, p);
    }
  }

  /** Without interest, `P / n` a month pays `P` off in `n` months. */
  lemma QuotientAmortizes(principal: real, n: nat)
    requires n > 0
    ensures ScheduledBalance(principal, 0.0, principal / n as real, n) == 0.0
  {
    ScheduledBalanceNoInterest(principal, principal / n as real, n);
    assert n as real * (principal / n as real) == principal;
  }

  /** At a non-zero rate, the annuity payment pays `P` off in `n` months. */
  lemma AnnuityAmortizes(principal: real, r: real, n: nat, g: real, p: real)
    requires r != 0.0 && g == Pow(1.0 + r, n) && g != 1.0
    requires p == principal * (r * g / (g - 1.0))
    ensures ScheduledBalance(principal, r, p, n) == 0.0
  {
    var b := ScheduledBalance(principal, r, p, n);
    ScheduledBalanceClosedForm(principal, r, p, n);
    AnnuityCancels(principal, r, g, p);
    ProductZero(r, b);
  }

  lemma ProductZero(x: real, y: real)
    requires x != 0.0 && x * y == 0.0
    ensures y == 0.0
  {
  }

  /** For a growth factor above 1 and a positive rate, `r * g / (g - 1)` exceeds `r`. */
  lemma AnnuityFactorAboveRate(principal: real, r: real, g: real)
    requires principal > 0.0 && r > 0.0 && g > 1.0
    ensures principal * (r * g / (g - 1.0)) > principal * r
  {
    var f := r * g / (g - 1.0);
    assert f - r == r / (g - 1.0);
    assert r / (g - 1.0) > 0.0;
  }

  /** At a positive rate the payment is finite and more than the first month's
      interest on the principal. */
  lemma PaymentExceedsInterest(principal: real, annualRate: real, termMonths: int)
    requires principal > 0.0 && termMonths > 0 && annualRate > 0.0
    ensures MonthlyPayment(principal, annualRate, termMonths).Finite?
    ensures MonthlyPayment(principal, annualRate, termMonths).value > principal * MonthlyRate(annualRate)
  {
    var r := MonthlyRate(annualRate);
    var g := Pow(1.0 + r, termMonths);
    PowAboveOne(1.0 + r, termMonths);
    assert MonthlyPayment(principal, annualRate, termMonths) == Finite(principal * (r * g / (g - 1.0)));
    AnnuityFactorAboveRate(principal, r, g);
  }

  // ---- the simulation ----

  /** A simulated month leaves `max(balance * (1 + r) - total, 0)`. */
  lemma StepClipsAtZero(balance: real, r: real, total: real)
    ensures Step(balance, r, total) == Max(balance * (1.0 + r) - total, 0.0)
  {
    assert balance * (1.0 + r) == balance + balance * r;
  }

  /** The simulated balance is never negative after the first month. */
  lemma BalanceNeverNegative(principal: real, r: real, total: real, k: nat)
    requires k >= 1
    ensures BalanceAfter(principal, r, total, k) >= 0.0
  {
    StepClipsAtZero(BalanceAfter(principal, r, total, k - 1), r, total);
  }

  /** A balance between 0 and the principal whose month of interest the total
      payment covers. */
  predicate Covered(balance: real, principal: real, r: real, total: real) {
    0.0 <= balance <= principal && balance * r <= total
  }

  /** One month at a rate of at least -100%, from a covered balance, takes the
      balance down but not below zero, and leaves it covered. */
  lemma StepShrinks(balance: real, principal: real, r: real, total: real)
    requires r >= -1.0 && Covered(balance, principal, r, total)
    ensures Step(balance, r, total) <= balance
    ensures Covered(Step(balance, r, total), principal, r, total)
  {
    StepClipsAtZero(balance, r, total);
    var next := Step(balance, r, total);
    if r < 0.0 && next > 0.0 {
      assert next == balance * (1.0 + r) - total;
      assert next * r == (balance * r) * (1.0 + r) - total * r;
      assert (balance * r) * (1.0 + r) <= total * (1.0 + r);
    } else if r >= 0.0 {
      assert next * r <= balance * r;
    }
  }

  /** At a rate of at least -100% a month, with a payment above the first
      month's interest, the simulated balance never grows and stays between 0
      and the principal. */
  lemma {:induction false} BalanceWithinPrincipal(principal: real, r: real, total: real, k: nat)
    requires principal >= 0.0 && r >= -1.0 && total > principal * r
    ensures Covered(BalanceAfter(principal, r, total, k), principal, r, total)
    ensures BalanceAfter(principal, r, total, k + 1) <= BalanceAfter(principal, r, total, k)
  {
    if k > 0 {
      BalanceWithinPrincipal(principal, r, total, k - 1);
      StepShrinks(BalanceAfter(principal, r, total, k - 1), principal, r, total);
    } else {
      assert Covered(principal, principal, r, total);
    }
    StepShrinks(BalanceAfter(principal, r, total, k), principal, r, total);
  }

  /** A payment below the first month's interest never reaches the 600-month
      cap: 100 a month on 1,000,000 at 2% a year (interest about 1,666.67 a
      month) is an infinite payoff time, not one of at most 600 months. */
  lemma TooLowPaymentIsInfinite()
    ensures PayoffTimeWithExtra(1000000.0, 2.0, 100.0, 0.0) == PosInf
  {
    assert MonthlyRate(2.0) == 2.0 / 1200.0;
  }

  /** With a negative rate below -100% a month the bound fails: the simulated
      balance of 100 at r = -3 and a total payment of -250 reaches 150. */
  lemma NegativeRateBalanceCanGrow()
    ensures -250.0 > 100.0 * -3.0
    ensures BalanceAfter(100.0, -3.0, -250.0, 2) == 150.0
  {
    assert BalanceAfter(100.0, -3.0, -250.0, 1) == 50.0;
  }

  /** One month paying at least `p` keeps a balance that was at or below the
      scheduled one (clipped at zero) at or below the next scheduled one. */
  lemma StepBelowSchedule(b: real, s: real, r: real, p: real, total: real)
    requires 0.0 <= b <= Max(s, 0.0) && r > 0.0 && p > 0.0 && total >= p
    ensures Step(b, r, total) <= Max(s * (1.0 + r) - p, 0.0)
  {
    StepClipsAtZero(b, r, total);
    if s >= 0.0 {
      assert b * (1.0 + r) <= s * (1.0 + r);
    } else {
      assert b == 0.0;
    }
  }

  /** Paying at least the scheduled payment keeps the simulated balance at or
      below the scheduled balance (or zero, once that is negative). */
  lemma {:induction false} BalanceBelowSchedule(principal: real, r: real, p: real, total: real, k: nat)
    requires principal > 0.0 && r > 0.0 && p > 0.0 && total >= p
    ensures BalanceAfter(principal, r, total, k) <= Max(ScheduledBalance(principal, r, p, k), 0.0)
  {
    if k > 0 {
      BalanceBelowSchedule(principal, r, p, total, k - 1);
      MonthBelowSchedule(principal, r, p, total, k);
    }
  }

  /** Month `k` of the induction in `BalanceBelowSchedule`: the bound for month
      `k - 1` carries over to month `k`. */
  lemma MonthBelowSchedule(principal: real, r: real, p: real, total: real, k: nat)
    requires principal > 0.0 && r > 0.0 && p > 0.0 && total >= p && k > 0
    requires BalanceAfter(principal, r, total, k - 1) <= Max(ScheduledBalance(principal, r, p, k - 1), 0.0)
    ensures BalanceAfter(principal, r, total, k) <= Max(ScheduledBalance(principal, r, p, k), 0.0)
  {
    var b := BalanceAfter(principal, r, total, k - 1);
    var s := ScheduledBalance(principal, r, p, k - 1);
    if k > 1 {
      BalanceNeverNegative(principal, r, total, k - 1);
    }
    assert 0.0 <= b;
    StepBelowSchedule(b, s, r, p, total);
    assert BalanceAfter(principal, r, total, k) == Step(b, r, total);
    assert ScheduledBalance(principal, r, p, k) == s * (1.0 + r) - p;
  }

  /** Without interest, paying at least `principal / n` a month takes at most `n` months. */
  lemma QuotientWithinTerm(principal: real, n: real, extra: real)
    requires principal > 0.0 && n > 0.0 && extra >= 0.0
    ensures principal / n + extra > 0.0
    ensures 0.0 <= principal / (principal / n + extra) <= n
  {
    var p := principal / n;
    var t := principal / (p + extra);
    assert t * (p + extra) == principal;
    assert t * p <= principal;
    assert p * n == principal;
  }

  /** At a positive rate, the formula's payment plus a non-negative extra payment
      pays the loan off within the term. */
  lemma PayoffWithinTermAtPositiveRate(principal: real, annualRate: real, termMonths: int, extra: real)
    requires principal > 0.0 && termMonths > 0 && annualRate > 0.0
    requires extra >= 0.0
    ensures MonthlyPayment(principal, annualRate, termMonths).Finite?
    ensures var p := MonthlyPayment(principal, annualRate, termMonths).value;
            var t := PayoffTimeWithExtra(principal, annualRate, p, extra);
            t.Finite? && 0.0 <= t.value <= termMonths as real
  {
    PaymentExceedsInterest(principal, annualRate, termMonths);
    var r := MonthlyRate(annualRate);
    var p := MonthlyPayment(principal, annualRate, termMonths).value;
    var total := p + extra;
    if termMonths <= MaxSimulatedMonths {
      PaymentAmortizes(principal, annualRate, termMonths);
      BalanceBelowSchedule(principal, r, p, total, termMonths);
      assert BalanceAfter(principal, r, total, termMonths) <= PaidOffBalance;
    } else {
      // the simulation stops by month 600, before the term ends
      var t := PayoffTimeWithExtra(principal, annualRate, p, extra);
      assert t.Finite? && t.value.Floor <= MaxSimulatedMonths;
    }
  }

  /** With the formula's payment and a non-negative extra payment, at a
      non-negative rate, the payoff time is finite and at most the term. */
  lemma PayoffWithExtraWithinTerm(principal: real, annualRate: real, termMonths: int, extra: real)
    requires principal > 0.0 && termMonths > 0 && annualRate >= 0.0
    requires extra >= 0.0
    ensures MonthlyPayment(principal, annualRate, termMonths).Finite?
    ensures var p := MonthlyPayment(principal, annualRate, termMonths).value;
            var t := PayoffTimeWithExtra(principal, annualRate, p, extra);
            t.Finite? && 0.0 <= t.value <= termMonths as real
  {
    if annualRate == 0.0 {
      QuotientWithinTerm(principal, termMonths as real, extra);
    } else {
      PayoffWithinTermAtPositiveRate(principal, annualRate, termMonths, extra);
    }
  }

  // ---- the composite calculation ----

  /** With a finite payment, `calculateLoan` reports it, the payment times the
      term and the interest beyond the principal (never negative), each to the
      nearest cent. */
  lemma FiniteLoanAmounts(params: LoanCalculation, x: real)
    requires MonthlyPayment(params.loanAmount, params.annualInterestRate, params.loanTermMonths) == Finite(x)
    ensures var res := CalculateLoan(params);
            var n := params.loanTermMonths;
            && res.monthlyPayment.Finite? && RoundsTo(res.monthlyPayment.value, x)
            && res.totalPaid.Finite? && RoundsTo(res.totalPaid.value, x * n as real)
            && RoundsTo(res.totalInterest, Max(0.0, x * n as real - params.loanAmount))
  {
    RoundedFinite(x, params.loanTermMonths, params.loanAmount, LoanSavings(params));
  }

  /** Rounding a finite payment `x` over `n` months. */
  lemma RoundedFinite(x: real, n: int, amount: real, savings: Option<Extended>)
    ensures var res := Rounded(Finite(x), n, amount, savings);
            && res.monthlyPayment.Finite? && RoundsTo(res.monthlyPayment.value, x)
            && res.totalPaid.Finite? && RoundsTo(res.totalPaid.value, x * n as real)
            && RoundsTo(res.totalInterest, Max(0.0, x * n as real - amount))
  {
    var res := Rounded(Finite(x), n, amount, savings);
    assert RoundsToExt(res.totalPaid, Finite(x * n as real));
  }

  /** With a payment of -Infinity (a zero denominator), the payment and the
      total paid are -Infinity and the interest is 0. */
  lemma InfiniteLoanAmounts(params: LoanCalculation)
    requires !MonthlyPayment(params.loanAmount, params.annualInterestRate, params.loanTermMonths).Finite?
    ensures var res := CalculateLoan(params);
            res.monthlyPayment == NegInf && res.totalPaid == NegInf && res.totalInterest == 0.0
  {
    var n := params.loanTermMonths;
    var p := MonthlyPayment(params.loanAmount, params.annualInterestRate, n);
    assert p == NegInf && n > 0;
    assert LoanInterest(p, n, params.loanAmount) == 0.0;
    Round2Unique(0.0, 0.0);
  }

  /** The saved months are absent exactly when there is no positive extra
      payment or the payoff time equals the term (a zero difference is falsy);
      otherwise they are the term less the payoff time, to the nearest cent, or
      -Infinity when the payoff time is infinite. */
  lemma CalculateLoanSavings(params: LoanCalculation)
    ensures var s := CalculateLoan(params).payoffTimeSavings;
            var extra := params.extraMonthlyPayment.GetOr(0.0);
            s.None? <==> extra <= 0.0 || PayoffForLoan(params) == Finite(params.loanTermMonths as real)
    ensures var s := CalculateLoan(params).payoffTimeSavings;
            s.Some? ==>
              match PayoffForLoan(params)
              case Finite(v) => s.value.Finite? && RoundsTo(s.value.value, params.loanTermMonths as real - v)
              case _ => s.value == NegInf
  {
  }
}

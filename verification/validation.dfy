/**
 * `validateLoanInputs` of src/lib/finance.ts: a partially filled loan form is
 * checked field by field, at most one message per field, and is valid exactly
 * when no message was produced.
 */
module LoanValidation {
  import opened Optional
  import opened Numbers
  import opened Finance
  import FinanceProofs

  /** The `Partial<LoanCalculation>` that `validateLoanInputs` takes: every field
      may be missing (`undefined`). */
  datatype LoanInputs = LoanInputs(
    loanAmount: Option<real>,
    annualInterestRate: Option<real>,
    loanTermMonths: Option<int>,
    extraMonthlyPayment: Option<real>)

  datatype ValidationError = ValidationError(field: string, message: string)

  datatype FormValidation = FormValidation(isValid: bool, errors: seq<ValidationError>)

  const MaxLoanAmount: real := 10000000.0
  const MaxAnnualRate: real := 50.0
  const MaxTermMonths: int := 600

  const AmountField: string := "loanAmount"
  const RateField: string := "annualInterestRate"
  const TermField: string := "loanTermMonths"
  const ExtraField: string := "extraMonthlyPayment"

  const AmountTooLow: string := "Loan amount must be greater than $0"
  const AmountTooHigh: string := "Loan amount cannot exceed $10,000,000"
  const RateNegative: string := "Interest rate cannot be negative"
  const RateTooHigh: string := "Interest rate cannot exceed 50%"
  const TermTooShort: string := "Loan term must be greater than 0 months"
  const TermTooLong: string := "Loan term cannot exceed 600 months (50 years)"
  const ExtraNegative: string := "Extra payment cannot be negative"

  /** The form a loan can be calculated from, stated field by field: an amount
      in (0, 10,000,000], a rate in [0, 50], a term in (0, 600], and an extra
      payment that is absent or not negative. */
  predicate AcceptableInputs(p: LoanInputs) {
    && p.loanAmount.Some? && 0.0 < p.loanAmount.value <= MaxLoanAmount
    && p.annualInterestRate.Some? && 0.0 <= p.annualInterestRate.value <= MaxAnnualRate
    && p.loanTermMonths.Some? && 0 < p.loanTermMonths.value <= MaxTermMonths
    && (p.extraMonthlyPayment.None? || p.extraMonthlyPayment.value >= 0.0)
  }

  /** The message recorded for `field`, if any (the first one). */
  function MessageFor(errors: seq<ValidationError>, field: string): (m: Option<string>)
  {
    if |errors| == 0 then None
    else if errors[0].field == field then Some(errors[0].message)
    else MessageFor(errors[1..], field)
  }

  /** A message is found exactly when some error is about the field, and the
      message found is one recorded for it. */
  lemma {:induction false} MessageForFound(errors: seq<ValidationError>, field: string)
    ensures MessageFor(errors, field).None? <==> forall e :: e in errors ==> e.field != field
    ensures MessageFor(errors, field).Some? ==>
              ValidationError(field, MessageFor(errors, field).value) in errors
  {
    if |errors| > 0 && errors[0].field != field {
      MessageForFound(errors[1..], field);
      assert forall e :: e in errors ==> e == errors[0] || e in errors[1..];
    }
  }

  /** At most one error, and only about `field`. */
  predicate AtMostOneFor(errors: seq<ValidationError>, field: string) {
    |errors| <= 1 && forall e :: e in errors ==> e.field == field
  }

  /** One rule: a field and the message it records, or nothing. */
  function Check(field: string, failed: bool, message: string): (errors: seq<ValidationError>)
    ensures AtMostOneFor(errors, field)
    ensures |errors| == 0 <==> !failed
    ensures MessageFor(errors, field) == if failed then Some(message) else None
  {
    if failed then [ValidationError(field, message)] else []
  }

  /** `!loanAmount || loanAmount <= 0`, then `loanAmount > 10000000`. */
  function AmountErrors(amount: Option<real>): (errors: seq<ValidationError>)
    ensures AtMostOneFor(errors, AmountField)
    ensures |errors| == 0 <==> amount.Some? && 0.0 < amount.value <= MaxLoanAmount
  {
    if amount.None? || amount.value <= 0.0 then Check(AmountField, true, AmountTooLow)
    else Check(AmountField, amount.value > MaxLoanAmount, AmountTooHigh)
  }

  /** `rate === undefined || rate < 0`, then `rate > 50`: a zero rate passes. */
  function RateErrors(rate: Option<real>): (errors: seq<ValidationError>)
    ensures AtMostOneFor(errors, RateField)
    ensures |errors| == 0 <==> rate.Some? && 0.0 <= rate.value <= MaxAnnualRate
  {
    if rate.None? || rate.value < 0.0 then Check(RateField, true, RateNegative)
    else Check(RateField, rate.value > MaxAnnualRate, RateTooHigh)
  }

  /** `!loanTermMonths || loanTermMonths <= 0`, then `loanTermMonths > 600`. */
  function TermErrors(term: Option<int>): (errors: seq<ValidationError>)
    ensures AtMostOneFor(errors, TermField)
    ensures |errors| == 0 <==> term.Some? && 0 < term.value <= MaxTermMonths
  {
    if term.None? || term.value <= 0 then Check(TermField, true, TermTooShort)
    else Check(TermField, term.value > MaxTermMonths, TermTooLong)
  }

  /** `extra && extra < 0`: an absent or zero extra payment is not checked. */
  function ExtraErrors(extra: Option<real>): (errors: seq<ValidationError>)
    ensures AtMostOneFor(errors, ExtraField)
    ensures |errors| == 0 <==> extra.None? || extra.value >= 0.0
  {
    if extra.Some? && extra.value != 0.0 then Check(ExtraField, extra.value < 0.0, ExtraNegative)
    else []
  }

  /** `validateLoanInputs`: the amount, rate, term and extra-payment rules in
      that order; valid when no rule fired. */
  function ValidateLoanInputs(p: LoanInputs): (v: FormValidation)
    ensures v.isValid <==> |v.errors| == 0
    ensures v.isValid <==> AcceptableInputs(p)
    ensures |v.errors| <= 4
  {
    var errors := AmountErrors(p.loanAmount) + RateErrors(p.annualInterestRate)
                  + TermErrors(p.loanTermMonths) + ExtraErrors(p.extraMonthlyPayment);
    FormValidation(|errors| == 0, errors)
  }

  /** The first message for a field in `a + b` is `a`'s, or else `b`'s. */
  lemma {:induction false} MessageForConcat(a: seq<ValidationError>, b: seq<ValidationError>, field: string)
    ensures MessageFor(a + b, field) == if MessageFor(a, field).Some? then MessageFor(a, field) else MessageFor(b, field)
  {
    if |a| > 0 {
      assert (a + b)[1..] == a[1..] + b;
      MessageForConcat(a[1..], b, field);
    } else {
      assert a + b == b;
    }
  }

  /** An error list about one field says nothing about another. */
  lemma OtherFieldSilent(errors: seq<ValidationError>, f: string, g: string)
    requires AtMostOneFor(errors, f) && f != g
    ensures MessageFor(errors, g).None?
  {
    MessageForFound(errors, g);
  }

  /** The loan amount gets "must be greater than $0" when missing or not
      positive, "cannot exceed" above 10,000,000, and nothing otherwise. */
  lemma AmountMessage(p: LoanInputs)
    ensures MessageFor(ValidateLoanInputs(p).errors, AmountField) ==
              if p.loanAmount.None? || p.loanAmount.value <= 0.0 then Some(AmountTooLow)
              else if p.loanAmount.value > MaxLoanAmount then Some(AmountTooHigh)
              else None
  {
    var a := AmountErrors(p.loanAmount);
    var r := RateErrors(p.annualInterestRate);
    var t := TermErrors(p.loanTermMonths);
    var x := ExtraErrors(p.extraMonthlyPayment);
    assert ValidateLoanInputs(p).errors == ((a + r) + t) + x;
    OtherFieldSilent(r, RateField, AmountField);
    OtherFieldSilent(t, TermField, AmountField);
    OtherFieldSilent(x, ExtraField, AmountField);
    MessageForConcat(a, r, AmountField);
    MessageForConcat(a + r, t, AmountField);
    MessageForConcat(a + r + t, x, AmountField);
  }

  /** The rate gets "cannot be negative" when missing or negative, "cannot
      exceed 50%" above 50, and nothing otherwise. */
  lemma RateMessage(p: LoanInputs)
    ensures MessageFor(ValidateLoanInputs(p).errors, RateField) ==
              if p.annualInterestRate.None? || p.annualInterestRate.value < 0.0 then Some(RateNegative)
              else if p.annualInterestRate.value > MaxAnnualRate then Some(RateTooHigh)
              else None
  {
    var a := AmountErrors(p.loanAmount);
    var r := RateErrors(p.annualInterestRate);
    var t := TermErrors(p.loanTermMonths);
    var x := ExtraErrors(p.extraMonthlyPayment);
    assert ValidateLoanInputs(p).errors == ((a + r) + t) + x;
    OtherFieldSilent(a, AmountField, RateField);
    OtherFieldSilent(t, TermField, RateField);
    OtherFieldSilent(x, ExtraField, RateField);
    MessageForConcat(a, r, RateField);
    MessageForConcat(a + r, t, RateField);
    MessageForConcat(a + r + t, x, RateField);
  }

  /** The term gets "must be greater than 0 months" when missing or not
      positive, "cannot exceed 600 months" above 600, and nothing otherwise. */
  lemma TermMessage(p: LoanInputs)
    ensures MessageFor(ValidateLoanInputs(p).errors, TermField) ==
              if p.loanTermMonths.None? || p.loanTermMonths.value <= 0 then Some(TermTooShort)
              else if p.loanTermMonths.value > MaxTermMonths then Some(TermTooLong)
              else None
  {
    var a := AmountErrors(p.loanAmount);
    var r := RateErrors(p.annualInterestRate);
    var t := TermErrors(p.loanTermMonths);
    var x := ExtraErrors(p.extraMonthlyPayment);
    assert ValidateLoanInputs(p).errors == ((a + r) + t) + x;
    OtherFieldSilent(a, AmountField, TermField);
    OtherFieldSilent(r, RateField, TermField);
    OtherFieldSilent(x, ExtraField, TermField);
    MessageForConcat(a, r, TermField);
    MessageForConcat(a + r, t, TermField);
    MessageForConcat(a + r + t, x, TermField);
  }

  /** The extra payment gets "cannot be negative" exactly when present and negative. */
  lemma ExtraMessage(p: LoanInputs)
    ensures MessageFor(ValidateLoanInputs(p).errors, ExtraField) ==
              if p.extraMonthlyPayment.Some? && p.extraMonthlyPayment.value < 0.0 then Some(ExtraNegative)
              else None
  {
    var a := AmountErrors(p.loanAmount);
    var r := RateErrors(p.annualInterestRate);
    var t := TermErrors(p.loanTermMonths);
    var x := ExtraErrors(p.extraMonthlyPayment);
    assert ValidateLoanInputs(p).errors == ((a + r) + t) + x;
    OtherFieldSilent(a, AmountField, ExtraField);
    OtherFieldSilent(r, RateField, ExtraField);
    OtherFieldSilent(t, TermField, ExtraField);
    MessageForConcat(a, r, ExtraField);
    MessageForConcat(a + r, t, ExtraField);
    MessageForConcat(a + r + t, x, ExtraField);
  }

  /** No two errors name the same field. */
  predicate DistinctFields(errors: seq<ValidationError>) {
    forall i, j :: 0 <= i < j < |errors| ==> errors[i].field != errors[j].field
  }

  /** Two error lists with distinct fields and no field in common join into one. */
  lemma DistinctConcat(a: seq<ValidationError>, b: seq<ValidationError>)
    requires DistinctFields(a) && DistinctFields(b)
    requires forall e, d :: e in a && d in b ==> e.field != d.field
    ensures DistinctFields(a + b)
  {
    var c := a + b;
    forall i, j | 0 <= i < j < |c|
      ensures c[i].field != c[j].field
    {
      if j < |a| {
        assert c[i] == a[i] && c[j] == a[j];
      } else if i >= |a| {
        assert c[i] == b[i - |a|] && c[j] == b[j - |a|];
      } else {
        assert c[i] == a[i] && c[j] == b[j - |a|];
      }
    }
  }

  /** No field is reported twice, and only the four form fields are reported. */
  lemma ValidationFieldsDistinct(p: LoanInputs)
    ensures DistinctFields(ValidateLoanInputs(p).errors)
    ensures forall e :: e in ValidateLoanInputs(p).errors ==>
              e.field in [AmountField, RateField, TermField, ExtraField]
  {
    var a := AmountErrors(p.loanAmount);
    var r := RateErrors(p.annualInterestRate);
    var t := TermErrors(p.loanTermMonths);
    var x := ExtraErrors(p.extraMonthlyPayment);
    DistinctConcat(a, r);
    DistinctConcat(a + r, t);
    DistinctConcat(a + r + t, x);
  }

  /** A zero interest rate passes validation. */
  lemma ZeroRateAccepted(p: LoanInputs)
    requires p.annualInterestRate == Some(0.0)
    ensures MessageFor(ValidateLoanInputs(p).errors, RateField).None?
  {
    RateMessage(p);
  }

  /** An extra payment that is absent or zero is never reported. */
  lemma AbsentExtraAccepted(p: LoanInputs)
    requires p.extraMonthlyPayment.None? || p.extraMonthlyPayment == Some(0.0)
    ensures MessageFor(ValidateLoanInputs(p).errors, ExtraField).None?
  {
    ExtraMessage(p);
  }

  // ---- what a valid form guarantees ----

  /** The calculation input a validated form becomes. */
  function ToCalculation(p: LoanInputs): (c: LoanCalculation)
    requires AcceptableInputs(p)
    ensures c.loanAmount > 0.0 && c.annualInterestRate >= 0.0 && 0 < c.loanTermMonths <= MaxSimulatedMonths
    ensures c.extraMonthlyPayment.GetOr(0.0) >= 0.0
  {
    LoanCalculation(p.loanAmount.value, p.annualInterestRate.value, p.loanTermMonths.value,
                    p.extraMonthlyPayment)
  }

  /** A cents amount rounded from a non-negative amount is not negative. */
  lemma RoundsToNonNegative(y: real, x: real)
    requires RoundsTo(y, x) && x >= 0.0
    ensures y >= 0.0
  {
    Round2Unique(x, y);
    Round2NonNegative(x);
  }

  /** At a non-negative rate the formula's payment is not negative. */
  lemma PaymentNonNegative(principal: real, annualRate: real, termMonths: int)
    requires principal > 0.0 && termMonths > 0 && annualRate >= 0.0
    ensures MonthlyPayment(principal, annualRate, termMonths).Finite?
    ensures MonthlyPayment(principal, annualRate, termMonths).value >= 0.0
  {
    if annualRate > 0.0 {
      FinanceProofs.PaymentExceedsInterest(principal, annualRate, termMonths);
      assert principal * MonthlyRate(annualRate) > 0.0;
    }
  }

  /** Rounding a non-negative payment over a positive term gives finite,
      non-negative amounts. */
  lemma RoundedNonNegative(x: real, n: int, amount: real, savings: Option<Extended>)
    requires x >= 0.0 && n > 0
    ensures var res := Rounded(Finite(x), n, amount, savings);
            && res.monthlyPayment.Finite? && res.monthlyPayment.value >= 0.0
            && res.totalPaid.Finite? && res.totalPaid.value >= 0.0
            && res.totalInterest >= 0.0
  {
    var res := Rounded(Finite(x), n, amount, savings);
    FinanceProofs.RoundedFinite(x, n, amount, savings);
    assert x * n as real >= 0.0;
    RoundsToNonNegative(res.monthlyPayment.value, x);
    RoundsToNonNegative(res.totalPaid.value, x * n as real);
    RoundsToNonNegative(res.totalInterest, Max(0.0, x * n as real - amount));
  }

  /** Within the validated ranges the payment, total and interest are finite
      and not negative. */
  lemma AcceptableLoanAmounts(c: LoanCalculation)
    requires c.loanAmount > 0.0 && c.annualInterestRate >= 0.0 && c.loanTermMonths > 0
    ensures var res := CalculateLoan(c);
            && res.monthlyPayment.Finite? && res.monthlyPayment.value >= 0.0
            && res.totalPaid.Finite? && res.totalPaid.value >= 0.0
            && res.totalInterest >= 0.0
  {
    var n := c.loanTermMonths;
    PaymentNonNegative(c.loanAmount, c.annualInterestRate, n);
    var x := MonthlyPayment(c.loanAmount, c.annualInterestRate, n).value;
    assert CalculateLoan(c) == Rounded(Finite(x), n, c.loanAmount, LoanSavings(c));
    RoundedNonNegative(x, n, c.loanAmount, LoanSavings(c));
  }

  /** For a positive amount and term and a non-negative rate and extra payment,
      the payoff with the extra payment is finite and within the term. */
  lemma AcceptablePayoffWithinTerm(c: LoanCalculation)
    requires c.loanAmount > 0.0 && c.annualInterestRate >= 0.0
    requires c.loanTermMonths > 0
    requires c.extraMonthlyPayment.GetOr(0.0) >= 0.0
    ensures PayoffForLoan(c).Finite? && PayoffForLoan(c).value <= c.loanTermMonths as real
  {
    FinanceProofs.PayoffWithExtraWithinTerm(
      c.loanAmount, c.annualInterestRate, c.loanTermMonths, c.extraMonthlyPayment.GetOr(0.0));
  }

  /** For a positive amount and term and a non-negative rate and extra payment,
      the months saved, when reported, are finite and not negative. */
  lemma AcceptableLoanSavings(c: LoanCalculation)
    requires c.loanAmount > 0.0 && c.annualInterestRate >= 0.0
    requires c.loanTermMonths > 0
    requires c.extraMonthlyPayment.GetOr(0.0) >= 0.0
    ensures var s := CalculateLoan(c).payoffTimeSavings;
            s.None? || (s.value.Finite? && s.value.value >= 0.0)
  {
    AcceptablePayoffWithinTerm(c);
    FinanceProofs.CalculateLoanSavings(c);
    var s := CalculateLoan(c).payoffTimeSavings;
    if s.Some? {
      RoundsToNonNegative(s.value.value, c.loanTermMonths as real - PayoffForLoan(c).value);
    }
  }

  /** A form that passes validation yields a finite, non-negative payment and
      total, and the months saved by an extra payment, when reported, are a
      finite non-negative number. */
  lemma ValidInputsGiveFiniteResult(p: LoanInputs)
    requires ValidateLoanInputs(p).isValid
    ensures var res := CalculateLoan(ToCalculation(p));
            && res.monthlyPayment.Finite? && res.monthlyPayment.value >= 0.0
            && res.totalPaid.Finite? && res.totalPaid.value >= 0.0
            && res.totalInterest >= 0.0
            && (res.payoffTimeSavings.None? ||
                (res.payoffTimeSavings.value.Finite? && res.payoffTimeSavings.value.value >= 0.0))
  {
    AcceptableLoanAmounts(ToCalculation(p));
    AcceptableLoanSavings(ToCalculation(p));
  }
}

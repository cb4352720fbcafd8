# Loan engine and cron explainer

This project models two pieces of a small tools web site:

- **The loan engine** (`src/lib/finance.ts`):
  - the level monthly payment of an amortizing loan;
  - the total interest;
  - the month-by-month payoff simulation with an extra payment, capped at 600 months;
  - the composite `calculateLoan`, which rounds every amount to cents and reports the months an extra payment saves;
  - `validateLoanInputs`, the form validation;
  - `formatTimeperiod`, the "N years and M months" display text.
- **The Spring cron explainer** (`src/components/SpringBootCronTool.tsx`, lines 14–128):
  - the six field names;
  - `parseField`, the per-field description;
  - `explainCron`, which tokenises the expression, builds the six-line breakdown and picks a summary from a fixed list of common shapes, with a generic description as fallback;
  - the month-name table;
  - `getOrdinalSuffix`.

How the model represents the source:

- **Numbers.** A JavaScript number is a Dafny `real`: an idealised double with no rounding error. `Infinity` and `-Infinity` appear as the `PosInf` and `NegInf` cases of `Numbers.Extended`. A division by zero in the source produces one of them, and the model keeps it.
- **Rounding.**
  - `Math.round` is `floor(x + 0.5)`.
  - `Math.round(x * 100) / 100` is `Numbers.Round2`.
  - JavaScript's `%` truncates toward zero. It is written out as `Numbers.Rem` on reals and `Numbers.JsRem` on integers, and `Numbers.RemOfIntegers` shows the two agree on whole numbers.
- **String built-ins** are written out in module `Text`: `trim`, `split(/\s+/)`, `split(c)`, `join`, `includes`, `toLowerCase` on ASCII, `parseInt` and integer printing.

Modules:

| module | what it models |
|---|---|
| `Optional` | `Option` values |
| `Numbers` | rounding, powers, extended numbers |
| `Text` | the string built-ins |
| `Finance` | the loan engine |
| `FinanceProofs` | what the payment formula and the simulation mean |
| `LoanValidation` | `validateLoanInputs` |
| `TimePeriod` | `formatTimeperiod`, with a reader that parses its output back |
| `Cron` | the cron explainer |

Four behaviours of the code are easy to misread, and the model follows the code in each:

- **Months saved.** `payoffTimeSavings` is kept whenever the unrounded difference between the term and the payoff time is truthy. A negative saving is reported, and so is `-Infinity` when the payoff time is infinite. Only an exactly zero difference is dropped.
- **The hour-step summary.** The rule "At minute 0 past every Nth hour" comes after "Every day at H:00", which already matches every hour other than `*`. So the hour-step rule never fires (see Findings).
- **Remaining months.** `formatTimeperiod` rounds the remaining months after taking the remainder, so it can print "12 months" (see Findings).
- **The 600-month cap.** The cap is reached only when the payment exceeds the first month's interest. A payment at or below it returns `Infinity` before the loop starts, so 100 a month on 1,000,000 at 2% is `Infinity`, although a test in the repository (tests/finance.test.ts:71-74) expects at most 600 (`FinanceProofs.TooLowPaymentIsInfinite`).

## Model

| member | source | states |
|---|---|---|
| Finance.MonthlyRate | src/lib/finance.ts:26 | the monthly rate is zero, or positive, exactly when the annual rate is |
| Finance.MonthlyPayment | src/lib/finance.ts:12-33 | a non-positive principal or term gives 0; a zero rate gives principal / months; the result is never +Infinity, and is -Infinity only for a positive principal and term at a non-zero rate |
| FinanceProofs.PaymentInfiniteExactly | src/lib/finance.ts:26-32 | the denominator `(1+r)^n - 1` vanishes, making the payment -Infinity, exactly at an annual rate of -2400% over an even positive term |
| FinanceProofs.PaymentAmortizes | src/lib/finance.ts:3-33 | the formula's payment, applied month by month with interest, leaves a balance of exactly zero at the end of the term (zero and non-zero rate) |
| FinanceProofs.ScheduledBalanceClosedForm | src/lib/finance.ts:3-5 | closed form of the balance after k level payments: `r * B(k) = r * P * (1+r)^k - p * ((1+r)^k - 1)` |
| FinanceProofs.ScheduledBalanceNoInterest | src/lib/finance.ts:22-23 | without interest the balance falls by one payment a month |
| FinanceProofs.QuotientAmortizes | src/lib/finance.ts:22-23 | at rate 0, principal / n a month pays the loan off in n months |
| FinanceProofs.AnnuityAmortizes | src/lib/finance.ts:26-32 | at a non-zero rate, `P * r * g / (g - 1)` with `g = (1+r)^n` pays the loan off in n months |
| FinanceProofs.PaymentExceedsInterest | src/lib/finance.ts:26-32 | at a positive rate the payment is finite and exceeds the first month's interest `P * r` |
| Finance.TotalInterest | src/lib/finance.ts:38-45 | the interest is never negative and is either 0 or payment × years × 12 − principal, whichever is larger |
| Finance.Simulate | src/lib/finance.ts:73-83 | the loop stops at a month no later than 600 at which the balance is at most 0.01 (or at 600), and every earlier month had a balance above 0.01 |
| Finance.PayoffTimeWithExtra | src/lib/finance.ts:50-84 | 0 for a non-positive principal or regular payment; principal / (regular + extra) at rate 0 (+Infinity for a zero total); +Infinity exactly when the total does not exceed the first month's interest; otherwise the first month at which the simulated balance is at most 0.01, capped at 600 |
| FinanceProofs.StepClipsAtZero | src/lib/finance.ts:77-79 | one simulated month leaves `max(balance * (1 + r) - total, 0)` |
| FinanceProofs.BalanceNeverNegative | src/lib/finance.ts:76-81 | after the first month the simulated balance is never negative |
| FinanceProofs.StepShrinks | src/lib/finance.ts:76-79 | at a rate of at least -100% a month, one month from a balance in [0, principal] whose interest the payment covers does not raise the balance and keeps it so |
| FinanceProofs.BalanceWithinPrincipal | src/lib/finance.ts:67-81 | at a rate of at least -100% a month with a total above the first month's interest, the balance stays in [0, principal], its interest stays covered, and it never grows |
| FinanceProofs.TooLowPaymentIsInfinite | tests/finance.test.ts:71-74 | 100 a month on 1,000,000 at 2% a year is an infinite payoff time, so the 600-month cap is not what this input reaches |
| FinanceProofs.NegativeRateBalanceCanGrow | src/lib/finance.ts:67-81 | at a rate below -100% a month the guard passes and the balance can exceed the principal (100 grows to 150) |
| FinanceProofs.BalanceBelowSchedule | src/lib/finance.ts:73-81 | paying at least the level payment keeps the simulated balance at or below the scheduled balance (or zero) |
| FinanceProofs.QuotientWithinTerm | src/lib/finance.ts:60-62 | at rate 0, paying at least principal / n plus a non-negative extra takes at most n months |
| FinanceProofs.PayoffWithinTermAtPositiveRate | src/lib/finance.ts:50-84 | at a positive rate and any positive term, the formula's payment plus a non-negative extra is paid off within the term (by the simulation's cap of 600 months for longer terms) |
| FinanceProofs.PayoffWithExtraWithinTerm | src/lib/finance.ts:89-110 | at a non-negative rate and any positive term, the payoff with a non-negative extra payment is finite and at most the term |
| FinanceProofs.MonthBelowSchedule | src/lib/finance.ts:73-81 | one month of the simulation keeps the balance at or below the scheduled balance (or zero) if it was before |
| Finance.PayoffForLoan | src/lib/finance.ts:102-108 | the payoff time `calculateLoan` compares with the term; see lemmas FinanceProofs.PayoffWithExtraWithinTerm and LoanValidation.AcceptablePayoffWithinTerm: finite and within the term for a positive amount and term and a non-negative rate and extra |
| Finance.LoanInterest | src/lib/finance.ts:93-96 | with the term in years as months / 12, the interest is `max(0, payment × months − principal)`; a payment of -Infinity gives 0 |
| Finance.LoanTotalPaid | src/lib/finance.ts:97 | the total paid is payment × months; -Infinity stays -Infinity over a positive term |
| Finance.LoanSavings | src/lib/finance.ts:100-110 | the saved months are absent exactly when there is no positive extra payment or the payoff time equals the term; otherwise they are the term less the payoff time (-Infinity for an infinite payoff) |
| Finance.Rounded | src/lib/finance.ts:112-118 | every amount is its unrounded value to the nearest cent (infinities kept), the term passes through, and the saved months are present exactly when the unrounded ones are |
| Finance.CalculateLoan | src/lib/finance.ts:89-119 | `payoffTimeMonths` is the input term; payment, total paid and interest are the unrounded values to the nearest cent; savings present exactly when the unrounded difference is truthy, then rounded |
| FinanceProofs.FiniteLoanAmounts | src/lib/finance.ts:95-115 | with a finite payment x, the result holds x, x × months and `max(0, x × months − principal)`, each to the nearest cent |
| FinanceProofs.InfiniteLoanAmounts | src/lib/finance.ts:95-115 | with a payment of -Infinity, the payment and total paid are -Infinity and the interest is 0 |
| FinanceProofs.CalculateLoanSavings | src/lib/finance.ts:100-117 | the saved months are absent exactly when the extra payment is not positive or the payoff equals the term; otherwise the rounded difference, or -Infinity |
| Numbers.Round | src/lib/finance.ts:179 | `Math.round` is within half of its argument, a half rounding up |
| Numbers.Round2 | src/lib/finance.ts:113-117 | rounding to cents gives a whole number of cents in `(x - 0.005, x + 0.005]` |
| Numbers.Round2Unique | src/lib/finance.ts:113-117 | that whole number of cents is unique, so rounding is determined by the bounds |
| Numbers.Round2Idempotent | src/lib/finance.ts:113-117 | rounding an already rounded amount changes nothing |
| Numbers.Round2NonNegative | src/lib/finance.ts:113-117 | rounding keeps a non-negative amount non-negative |
| Numbers.Round2Ext | src/lib/finance.ts:113-117 | rounding a possibly infinite amount rounds finite values to cents and keeps infinities |
| Numbers.PowIsOne | src/lib/finance.ts:29-30 | a positive power is 1 only for the base 1 or, at an even power, -1 |
| LoanValidation.ValidateLoanInputs | src/lib/finance.ts:124-153 | the form is valid exactly when there are no errors, exactly when every field is in range (amount in (0, 10,000,000], rate in [0, 50], term in (0, 600], extra absent or ≥ 0); at most four errors |
| LoanValidation.AmountErrors | src/lib/finance.ts:127-131 | at most one error, about the amount; none exactly when the amount is present and in (0, 10,000,000] |
| LoanValidation.RateErrors | src/lib/finance.ts:133-137 | at most one error, about the rate; none exactly when the rate is present and in [0, 50] |
| LoanValidation.TermErrors | src/lib/finance.ts:139-143 | at most one error, about the term; none exactly when the term is present and in (0, 600] |
| LoanValidation.ExtraErrors | src/lib/finance.ts:145-147 | at most one error, about the extra payment; none exactly when it is absent or not negative |
| LoanValidation.MessageForFound | src/lib/finance.ts:124-153 | a field's message is found exactly when some error names that field, and is one recorded for it |
| LoanValidation.AmountMessage | src/lib/finance.ts:127-131 | the amount's message is "must be greater than $0" when missing or ≤ 0, "cannot exceed $10,000,000" above the cap, none otherwise |
| LoanValidation.RateMessage | src/lib/finance.ts:133-137 | the rate's message is "cannot be negative" when missing or < 0, "cannot exceed 50%" above 50, none otherwise |
| LoanValidation.TermMessage | src/lib/finance.ts:139-143 | the term's message is "must be greater than 0 months" when missing or ≤ 0, "cannot exceed 600 months" above 600, none otherwise |
| LoanValidation.ExtraMessage | src/lib/finance.ts:145-147 | the extra payment's message is "cannot be negative" exactly when it is present and negative |
| LoanValidation.ValidationFieldsDistinct | src/lib/finance.ts:124-153 | no field is reported twice, and only the four form fields are reported |
| LoanValidation.ZeroRateAccepted | src/lib/finance.ts:133 | a zero interest rate is not reported |
| LoanValidation.AbsentExtraAccepted | src/lib/finance.ts:145 | an absent or zero extra payment is not reported |
| LoanValidation.AcceptableLoanAmounts | src/lib/finance.ts:89-119 | within the validated ranges, payment, total paid and interest are finite and not negative |
| LoanValidation.AcceptablePayoffWithinTerm | src/lib/finance.ts:102-109 | for a positive amount and term and a non-negative rate and extra payment, the payoff with the extra payment is finite and within the term |
| LoanValidation.AcceptableLoanSavings | src/lib/finance.ts:102-117 | for a positive amount and term and a non-negative rate and extra payment, reported saved months are finite and not negative |
| LoanValidation.ValidInputsGiveFiniteResult | src/lib/finance.ts:89-153 | a form that passes validation gives a finite, non-negative payment, total and interest, and finite non-negative saved months when reported |
| TimePeriod.Years | src/lib/finance.ts:178 | `Math.floor(months / 12)`: 12 × years ≤ months < 12 × years + 12 |
| TimePeriod.UnitWord | src/lib/finance.ts:182-189 | the unit takes an "s" exactly when the count is not 1 |
| TimePeriod.FormatPeriodIsJoin | src/lib/finance.ts:181-189 | the text is the period's words joined by single spaces: months alone, years alone, or years "and" months |
| TimePeriod.ReadFormatPeriod | src/lib/finance.ts:181-189 | every text the three templates produce reads back as the years and months it was made from |
| TimePeriod.FormatTimeperiod | src/lib/finance.ts:177-190 | `formatTimeperiod`; see lemmas TimePeriod.ReadFormatTimeperiod and TimePeriod.FormatPeriodIsJoin: the text reads back as `floor(months / 12)` years and `round(months % 12)` months |
| TimePeriod.ReadFormatTimeperiod | src/lib/finance.ts:177-190 | `formatTimeperiod` reads back as `floor(months / 12)` years and `round(months % 12)` months |
| TimePeriod.ReadPeriodWords | src/lib/finance.ts:181-189 | the words of each template read back as their period, with the correct singular or plural |
| TimePeriod.ReadCountOfCount | src/lib/finance.ts:182-189 | a count reads back with the unit it was written with and not with the other unit |
| TimePeriod.TimeperiodAddsUp | src/lib/finance.ts:177-179 | for a non-negative count, years ≥ 0, remaining months in [0, 12], and 12 × years + months is within half a month of the input |
| TimePeriod.RemAfterYears | src/lib/finance.ts:179 | for a non-negative count, the truncating remainder is what is left after the whole years |
| TimePeriod.WholeMonths | src/lib/finance.ts:177-179 | a whole month count splits exactly into n / 12 years and n % 12 months |
| TimePeriod.FormatZero | src/lib/finance.ts:181-182 | 0 months is "0 months" |
| TimePeriod.FormatOne | src/lib/finance.ts:181-182 | 1 month is singular: "1 month" |
| TimePeriod.FormatYearAndMonths | src/lib/finance.ts:177-189 | 13.7 months is "1 year and 2 months" |
| TimePeriod.TwelveMonthsExample | src/lib/finance.ts:178-189 | 23.6 months is "1 year and 12 months" |
| TimePeriod.CarriedPeriod | src/lib/finance.ts:177-179 | rounding first gives remaining months in [0, 11] that add up with the years to the rounded count |
| TimePeriod.ReadFormatTimeperiodCarried | src/lib/finance.ts:177-190 | the rounding-first text reads back as a period with fewer than 12 months adding up to the rounded count |
| TimePeriod.CarriedAgreesBelowTwelve | src/lib/finance.ts:177-190 | whenever the remaining months stay below 12, rounding first gives the same text as `formatTimeperiod` |
| TimePeriod.CarriedExample | src/lib/finance.ts:177-190 | rounding first turns 23.6 months into "2 years" |
| Cron.ParseField | src/components/SpringBootCronTool.tsx:24-40 | `parseField`; see lemmas Cron.ParseFieldStep, Cron.ParseFieldRange and Cron.ParseFieldList for the step, range and list descriptions |
| Cron.ParseFieldStep | src/components/SpringBootCronTool.tsx:27-30 | a step `start/step` is "every step unit", plus " starting from start" unless the start is `*`; a `-` in it does not make it a range |
| Cron.ParseFieldStepIgnoresRest | src/components/SpringBootCronTool.tsx:28 | pieces after a second `/` are ignored |
| Cron.ParseFieldRange | src/components/SpringBootCronTool.tsx:31-34 | a range `a-b` is "unit a through b" |
| Cron.ParseFieldList | src/components/SpringBootCronTool.tsx:35-38 | a list is "unit " followed by the value with every "," replaced by ", " |
| Numbers.JsRem | src/components/SpringBootCronTool.tsx:126-127 | JavaScript `%` on integers: it differs from the dividend by a multiple of the divisor, and lies in [0, b) for a non-negative dividend and in (-b, 0] for a negative one, which fixes it |
| Numbers.RemOfIntegers | src/lib/finance.ts:179 | on whole numbers the remainder on reals and the remainder on integers agree, so JavaScript's one `%` is modelled once |
| Cron.GetOrdinalSuffix | src/components/SpringBootCronTool.tsx:123-128 | `getOrdinalSuffix`; see lemmas Cron.OrdinalSuffixIsEnglish and Cron.OrdinalSuffixOfNumber: the English ordinal suffix |
| Cron.OrdinalSuffixIsEnglish | src/components/SpringBootCronTool.tsx:123-128 | the suffix-table lookup gives the English ordinal suffix (11–13 "th", else 1 "st", 2 "nd", 3 "rd", else "th") for a non-negative number, and "th" for a negative number or text without digits |
| Cron.OrdinalSuffixOfNat | src/components/SpringBootCronTool.tsx:125-127 | the table lookup at `n % 100` gives the English suffix of every non-negative `n` |
| Cron.SuffixLookupBelowHundred | src/components/SpringBootCronTool.tsx:126-127 | for `v` in [0, 100), `suffix[(v - 20) % 10] \|\| suffix[v] \|\| suffix[0]` is the English suffix of `v` |
| Cron.SuffixLookupFromTwenty | src/components/SpringBootCronTool.tsx:126-127 | from 20 to 99, `(v - 20) % 10` is the last digit and selects "st", "nd", "rd" or "th" as English does |
| Cron.SuffixLookupBelowTwenty | src/components/SpringBootCronTool.tsx:126-127 | below 20, the first lookup misses or gives "th" (at 0 and 10), and `suffix[v]` gives "st", "nd", "rd" for 1 to 3; 11 to 13 get "th" |
| Cron.OrdinalSuffixOfNumber | src/components/SpringBootCronTool.tsx:123-128 | the suffix of a printed non-negative number is its English suffix |
| Cron.NthOfNumber | src/components/SpringBootCronTool.tsx:75 | a numeric interval is printed with its English ordinal suffix |
| Cron.ThirtiethSuffix | src/components/SpringBootCronTool.tsx:75 | 30 is printed "30th" |
| Cron.MonthName | src/components/SpringBootCronTool.tsx:78 | `monthNames[month] \|\| month`; see lemmas Cron.MonthNameOfNumber and Cron.MonthNameKeys |
| Cron.MonthNameOfNumber | src/components/SpringBootCronTool.tsx:59-63 | the month numbers 1 to 12 are named January to December in calendar order |
| Cron.MonthNameKeys | src/components/SpringBootCronTool.tsx:59-63 | the table translates exactly the numbers 1 to 12 written without a leading zero; anything else is shown as written |
| Cron.MonthKeysAreNumbers | src/components/SpringBootCronTool.tsx:59-63 | every key of the month table is a number from 1 to 12 |
| Cron.MinuteClause | src/components/SpringBootCronTool.tsx:96-103 | the minute clause is "every minute" exactly for `*`; for a step it is "every " + interval with its ordinal suffix + " minute"; otherwise "minute M"; the clause starts with 'm' exactly when the minute is neither `*` nor a step |
| Cron.StepMinuteClause | src/components/SpringBootCronTool.tsx:98-100 | a minute `start/step` reads "every Nth minute" with the step as N |
| Cron.TimeParts | src/components/SpringBootCronTool.tsx:93-105 | the generic time clause is "second S" first exactly when the second is not "0", then the minute clause, then "hour H" last exactly when the hour is not `*`; nothing else |
| Cron.DayParts | src/components/SpringBootCronTool.tsx:107-115 | the generic day clause lists "day D of month" (first, exactly when the day is not `*`), "in " + the month's name (next, when the month is not `*`) and "on W" (last, exactly when the weekday is not `*`), one part per such field; it is exactly ["every day"] when all three are `*` |
| Cron.FirstRule | src/components/SpringBootCronTool.tsx:69-91 | the index of the first common shape that fits: it fits, and no earlier one does |
| Cron.GenericSummary | src/components/SpringBootCronTool.tsx:92-117 | the generic description is "At " followed by all time clauses and then all day clauses, separated by ", "; the clauses are those the functions Cron.TimeParts and Cron.DayParts pin down |
| Cron.ClausesJoined | src/components/SpringBootCronTool.tsx:117 | joining the time clauses and the day clauses separately and then with ", " is joining all clauses with ", " |
| Cron.Summary | src/components/SpringBootCronTool.tsx:66-118 | the summary; see lemma Cron.SummaryIsFirstRule |
| Cron.SummaryIsFirstRule | src/components/SpringBootCronTool.tsx:66-118 | the summary is the text of the first fitting common shape, else the generic description |
| Cron.HourStepShapeUnreachable | src/components/SpringBootCronTool.tsx:71-86 | every expression the hour-step shape fits is taken first by "Every day at H:00", so that shape never fires |
| Cron.EveryOtherHourExample | src/components/SpringBootCronTool.tsx:71-72 | "0 0 */2 * * *" is summarised as "Every day at */2:00" |
| Cron.CommonShapeExamples | src/components/SpringBootCronTool.tsx:69-90 | "0 0 * * * *" is "At the start of every hour", "0 0 0 1 * *" is "At midnight on the first day of every month", and a minute step is "At every Nth minute" |
| Cron.IntervalOfStep | src/components/SpringBootCronTool.tsx:74 | the interval of `start/step` is the step |
| Cron.HourStepFirstDescribesStep | src/components/SpringBootCronTool.tsx:84-86 | with the hour-step shape tried first, an hour step is "At minute 0 past every Nth hour", and every other expression is summarised as before |
| Cron.EveryNthHourStepFirst | src/components/SpringBootCronTool.tsx:84-86 | with the hour-step shape tried first, `*/step` in the hour reads "every Nth hour" |
| Cron.ExplainCron | src/components/SpringBootCronTool.tsx:42-56 | valid exactly when the trimmed expression has six white-space-separated parts; otherwise the fixed message and no breakdown; if valid, six breakdown lines "Name: description" in field order and the summary of those fields |
| Cron.ExplainCronOfWords | src/components/SpringBootCronTool.tsx:42-56 | words joined by single spaces are valid exactly when there are six, and then they are the fields |
| Cron.ExplainCronNormalizes | src/components/SpringBootCronTool.tsx:43 | collapsing the white space between and around the words does not change the explanation |
| Cron.ExplainCronBlank | src/components/SpringBootCronTool.tsx:43-51 | a blank expression is invalid with the fixed message |
| Text.Trim | src/components/SpringBootCronTool.tsx:43 | the trimmed text is empty or starts and ends with a non-space; see lemma Text.TrimRemovesSpaceEnds |
| Text.TrimRemovesSpaceEnds | src/components/SpringBootCronTool.tsx:43 | the trimmed text is the input with a run of white space removed at each end, and nothing else removed |
| Text.TrimBlank | src/components/SpringBootCronTool.tsx:43 | trimming leaves nothing exactly when the text is all white space |
| Text.Tokens | src/components/SpringBootCronTool.tsx:43 | `trim().split(/\s+/)` gives at least one piece; see lemmas Text.TokensOfJoin, Text.TokensAreWords and Text.TokensOfBlank |
| Text.TokensOfJoin | src/components/SpringBootCronTool.tsx:43 | `trim().split(/\s+/)` of words joined by single spaces gives the words back |
| Text.TokensAreWords | src/components/SpringBootCronTool.tsx:43 | a text with a non-space character tokenises into non-empty words only |
| Text.TokensOfBlank | src/components/SpringBootCronTool.tsx:43 | a blank text has the single token "" |
| Text.SplitOnSpaceRunsOfJoin | src/components/SpringBootCronTool.tsx:43 | `split(/\s+/)` of words joined by single spaces gives the words back |
| Text.SplitOn | src/components/SpringBootCronTool.tsx:28 | `split(c)` gives at least one piece, two or more when `c` occurs; see lemmas Text.SplitOnPieces, Text.JoinSplitOn and Text.SplitOnJoin |
| Text.Join | src/components/SpringBootCronTool.tsx:37 | `join(sep)`; see lemmas Text.JoinSplitOn, Text.SplitOnJoin and Text.TokensOfJoin |
| Text.SplitOnPieces | src/components/SpringBootCronTool.tsx:28 | no piece of `split(c)` holds `c`, and there are two or more pieces exactly when `c` occurs |
| Text.JoinAppend | src/components/SpringBootCronTool.tsx:117 | `join(sep)` of two non-empty lists one after the other is the two joins with one separator between |
| Text.JoinSplitOn | src/components/SpringBootCronTool.tsx:28 | joining the pieces of `split(c)` with `c` gives the text back |
| Text.SplitOnJoin | src/components/SpringBootCronTool.tsx:28 | splitting a join of `c`-free pieces gives the pieces back |
| Text.SplitOnConcat | src/components/SpringBootCronTool.tsx:28 | splitting at one more separator splits both sides independently |
| Text.JoinSplitIsReplace | src/components/SpringBootCronTool.tsx:36-37 | `split(',').join(', ')` replaces every "," by ", " |
| Text.LowerChar | src/components/SpringBootCronTool.tsx:25 | an ASCII capital becomes the small letter at the same place in the alphabet; every other character is kept |
| Text.ToLowerAscii | src/components/SpringBootCronTool.tsx:25 | lower-casing keeps the length and lower-cases each character in place, so no upper-case ASCII letter is left |
| Text.IntToString | src/lib/finance.ts:182-189 | a printed integer is a non-empty word that starts with "-" exactly when the integer is negative |
| Text.ParseInt | src/components/SpringBootCronTool.tsx:124 | `parseInt` with no radix; see lemma Text.ParseIntOfIntToString |
| Text.ParseIntOfIntToString | src/components/SpringBootCronTool.tsx:124 | `parseInt` reads back every printed integer |

## Left out

- Floating point: amounts are exact reals, so double rounding, `NaN` and overflow to infinity through large inputs are not modelled. The only infinities kept are those from a division by zero, plus the explicit `Infinity` of the payoff guard. `NaN` or infinite inputs are not considered.
- Fractional loan terms: the term is a whole number of months (`int`), so `Math.pow(1 + r, n)` has a whole exponent. The term in years, months / 12, is therefore multiplied back by 12 exactly.
- `formatCurrency` and `formatPercentage`: locale formatting and `toFixed` are display code outside the loan logic.
- `saveToLocalStorage` and `loadFromLocalStorage`: browser storage I/O.
- The React components, the page metadata, the cron examples list, the field descriptions and the regex tool: user interface.
- `src/types/index.ts` is not part of this model. The loan records are taken from how `src/lib/finance.ts` uses them. `calculateLoan` reads the term as `loanTermMonths` (src/lib/finance.ts:90), and the model's `LoanCalculation` follows that; the `loanTermYears` field of the `LoanCalculation` interface in `src/types/index.ts` is not used. There is no `LoanInputs` type there: `validateLoanInputs` takes a `Partial<LoanCalculation>` (src/lib/finance.ts:124), which the model writes with `Option` fields as `LoanInputs`. `ValidationError` and `FormValidation` are modelled as datatypes.
- `parseInt` on numerals too long for a double's precision, and printing numbers of 1e21 or more in exponent form.
- `toLowerCase` beyond ASCII: the field names are ASCII.
- Lookups of inherited property names (such as `constructor`) in the month-name table: the table is a plain map of its twelve keys.
- FinanceProofs.BalanceWithinPrincipal: the bound is proved for rates of at least -100% a month only. Below that the simulated balance can exceed the principal, as `NegativeRateBalanceCanGrow` shows.

## Findings

| source | as written | input that shows it | evidently intended | confidence | as-written member | corrected member |
|---|---|---|---|---|---|---|
| src/lib/finance.ts:178-179 | the remaining months are rounded after the remainder is taken, and nothing carries a rounded-up 12 into the years | `formatTimeperiod(23.6)` gives "1 year and 12 months" | round the count first, so 23.6 months reads "2 years" and the months are always 0 to 11 | not executed | TimePeriod.TwelveMonthsExample | TimePeriod.ReadFormatTimeperiodCarried |
| src/components/SpringBootCronTool.tsx:84-86 | the hour-step shape is tried after "Every day at H:00", which already matches every hour other than `*`, so the step shape can never fire | `"0 0 */2 * * *"` gives "Every day at */2:00" | "At minute 0 past every 2nd hour" | not executed | Cron.EveryOtherHourExample | Cron.HourStepFirstDescribesStep |

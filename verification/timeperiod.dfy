/**
 * `formatTimeperiod` of src/lib/finance.ts: a month count written as whole
 * years and rounded remaining months, with English plurals.
 */
module TimePeriod {
  import opened Optional
  import opened Numbers
  import opened Text

  /** `Math.floor(months / 12)`. */
  function Years(months: real): (y: int)
    ensures 12.0 * y as real <= months < 12.0 * y as real + 12.0
  {
    (months / 12.0).Floor
  }

  /** `Math.round(months % 12)`, with JavaScript's truncating remainder. */
  function RemainingMonths(months: real): int
  {
    Round(Rem(months, 12.0))
  }

  /** `unit` with an "s" unless the count is exactly 1. */
  function UnitWord(unit: string, n: int): (w: string)
    ensures w == unit || w == unit + "s"
    ensures w == unit <==> n == 1
  {
    unit + (if n != 1 then "s" else "")
  }

  /** `${n} unit${n !== 1 ? 's' : ''}`. */
  function Count(n: int, unit: string): string
  {
    IntToString(n) + " " + UnitWord(unit, n)
  }

  /** The three templates: months alone when there are no whole years, years
      alone when no months remain, and both otherwise. */
  function FormatPeriod(years: int, months: int): string
  {
    if years == 0 then Count(months, "month")
    else if months == 0 then Count(years, "year")
    else Count(years, "year") + " and " + Count(months, "month")
  }

  /** `formatTimeperiod`. */
  function FormatTimeperiod(months: real): string
  {
    FormatPeriod(Years(months), RemainingMonths(months))
  }

  // ---- reading a period back ----

  /** The years and months a period text names. */
  datatype Period = Period(years: int, months: int)

  /** A count and its unit word, accepted only with the plural the count calls for. */
  function ReadCount(number: string, word: string, unit: string): (n: Option<int>)
    ensures n.Some? ==> ParseInt(number) == n && word == UnitWord(unit, n.value)
  {
    match ParseInt(number)
    case Some(k) => if word == UnitWord(unit, k) then Some(k) else None
    case None => None
  }

  /** Reads "N month(s)", "N year(s)" or "N year(s) and M month(s)". */
  function ReadTimeperiod(s: string): Option<Period>
  {
    ReadWords(Tokens(s))
  }

  /** The period named by a text's words. */
  function ReadWords(ws: seq<string>): (p: Option<Period>)
    ensures p.Some? ==> |ws| == 2 || |ws| == 5
  {
    if |ws| == 2 then
      match ReadCount(ws[0], ws[1], "month")
      case Some(m) => Some(Period(0, m))
      case None =>
        match ReadCount(ws[0], ws[1], "year")
        case Some(y) => Some(Period(y, 0))
        case None => None
    else if |ws| == 5 && ws[2] == "and" then
      match (ReadCount(ws[0], ws[1], "year"), ReadCount(ws[3], ws[4], "month"))
      case (Some(y), Some(m)) => Some(Period(y, m))
      case _ => None
    else None
  }

  /** The words of a formatted period. */
  function PeriodWords(years: int, months: int): (ws: seq<string>)
    ensures |ws| == 2 || |ws| == 5
    ensures forall i :: 0 <= i < |ws| ==> IsWord(ws[i])
  {
    var y := [IntToString(years), UnitWord("year", years)];
    var m := [IntToString(months), UnitWord("month", months)];
    if years == 0 then m
    else if months == 0 then y
    else y + ["and"] + m
  }

  /** A formatted period is its words separated by single spaces. */
  lemma FormatPeriodIsJoin(years: int, months: int)
    ensures FormatPeriod(years, months) == Join(PeriodWords(years, months), " ")
  {
    if years == 0 {
      CountIsJoin(months, "month");
    } else if months == 0 {
      CountIsJoin(years, "year");
    } else {
      BothCountsAreJoin(years, months);
    }
  }

  /** A count is its number and unit word separated by a space. */
  lemma CountIsJoin(n: int, unit: string)
    ensures Count(n, unit) == Join([IntToString(n), UnitWord(unit, n)], " ")
  {
    JoinCons(IntToString(n), [UnitWord(unit, n)], " ");
  }

  /** Years and months are five words separated by spaces. */
  lemma BothCountsAreJoin(years: int, months: int)
    requires years != 0 && months != 0
    ensures FormatPeriod(years, months) == Join(PeriodWords(years, months), " ")
  {
    var y := IntToString(years);
    var yw := UnitWord("year", years);
    var m := IntToString(months);
    var mw := UnitWord("month", months);
    JoinCons(m, [mw], " ");
    JoinCons("and", [m, mw], " ");
    JoinCons(yw, ["and", m, mw], " ");
    JoinCons(y, [yw, "and", m, mw], " ");
    assert PeriodWords(years, months) == [y, yw, "and", m, mw];
    SpacedAnd(y, yw, m + " " + mw);
  }

  lemma SpacedAnd(a: string, b: string, c: string)
    ensures a + " " + b + " and " + c == a + " " + (b + " " + ("and" + " " + c))
  {
    assert " and " == " " + "and" + " ";
  }

  /** A count reads back with the unit it was written with, and not with the other. */
  lemma ReadCountOfCount(n: int, unit: string, other: string)
    requires unit != [] && other != [] && unit[0] != other[0]
    ensures ReadCount(IntToString(n), UnitWord(unit, n), unit) == Some(n)
    ensures ReadCount(IntToString(n), UnitWord(unit, n), other) == None
  {
    ParseIntOfIntToString(n);
    assert UnitWord(unit, n)[0] == unit[0];
    assert UnitWord(other, n)[0] == other[0];
  }

  /** The words of a period read back as that period. */
  lemma ReadPeriodWords(years: int, months: int)
    ensures ReadWords(PeriodWords(years, months)) == Some(Period(years, months))
  {
    var ws := PeriodWords(years, months);
    var y := IntToString(years);
    var yw := UnitWord("year", years);
    var m := IntToString(months);
    var mw := UnitWord("month", months);
    if years == 0 {
      assert ws == [m, mw];
      ReadMonthsAlone(months);
    } else if months == 0 {
      assert ws == [y, yw];
      ReadYearsAlone(years);
    } else {
      assert ws == [y, yw, "and", m, mw];
      ReadYearsAndMonths(years, months);
    }
  }

  /** Two words naming months read back as months alone. */
  lemma ReadMonthsAlone(months: int)
    ensures ReadWords([IntToString(months), UnitWord("month", months)]) == Some(Period(0, months))
  {
    var ws := [IntToString(months), UnitWord("month", months)];
    ReadCountOfCount(months, "month", "year");
    ReadTwoWords(ws);
  }

  /** Two words naming years read back as years alone. */
  lemma ReadYearsAlone(years: int)
    ensures ReadWords([IntToString(years), UnitWord("year", years)]) == Some(Period(years, 0))
  {
    var ws := [IntToString(years), UnitWord("year", years)];
    ReadCountOfCount(years, "year", "month");
    ReadTwoWords(ws);
  }

  /** Five words naming years and months read back as both. */
  lemma ReadYearsAndMonths(years: int, months: int)
    ensures ReadWords([IntToString(years), UnitWord("year", years), "and",
                       IntToString(months), UnitWord("month", months)]) == Some(Period(years, months))
  {
    ReadCountOfOwnCount(years, "year");
    ReadCountOfOwnCount(months, "month");
    ReadFiveWords([IntToString(years), UnitWord("year", years), "and",
                   IntToString(months), UnitWord("month", months)], years, months);
  }

  /** A count reads back with the unit it was written with. */
  lemma ReadCountOfOwnCount(n: int, unit: string)
    ensures ReadCount(IntToString(n), UnitWord(unit, n), unit) == Some(n)
  {
    ParseIntOfIntToString(n);
  }

  /** Two words read as months when they name months, and as years otherwise. */
  lemma ReadTwoWords(ws: seq<string>)
    requires |ws| == 2
    ensures var month := ReadCount(ws[0], ws[1], "month");
            var year := ReadCount(ws[0], ws[1], "year");
            ReadWords(ws) == if month.Some? then Some(Period(0, month.value))
                             else if year.Some? then Some(Period(year.value, 0))
                             else None
  {
  }

  /** Five words joined by "and" read as years and months when both halves read. */
  lemma ReadFiveWords(ws: seq<string>, years: int, months: int)
    requires |ws| == 5 && ws[2] == "and"
    requires ReadCount(ws[0], ws[1], "year") == Some(years)
    requires ReadCount(ws[3], ws[4], "month") == Some(months)
    ensures ReadWords(ws) == Some(Period(years, months))
  {
  }

  /** Every formatted period reads back as the years and months it was made from. */
  lemma ReadFormatPeriod(years: int, months: int)
    ensures ReadTimeperiod(FormatPeriod(years, months)) == Some(Period(years, months))
  {
    FormatPeriodIsJoin(years, months);
    TokensOfJoin(PeriodWords(years, months));
    ReadPeriodWords(years, months);
  }

  /** `formatTimeperiod` reads back as `Math.floor(months / 12)` years and
      `Math.round(months % 12)` months. */
  lemma ReadFormatTimeperiod(months: real)
    ensures ReadTimeperiod(FormatTimeperiod(months)) ==
              Some(Period(Years(months), RemainingMonths(months)))
  {
    ReadFormatPeriod(Years(months), RemainingMonths(months));
  }

  // ---- what the numbers mean ----

  /** For a non-negative count the truncating remainder is what is left after
      the whole years. */
  lemma RemAfterYears(months: real)
    requires months >= 0.0
    ensures Rem(months, 12.0) == months - 12.0 * Years(months) as real
  {
  }

  /** For a non-negative count the years and remaining months add back up to
      the count, within the half month that rounding moves; the remaining
      months reach 12 when the fraction past the years rounds up. */
  lemma TimeperiodAddsUp(months: real)
    requires months >= 0.0
    ensures Years(months) >= 0
    ensures 0 <= RemainingMonths(months) <= 12
    ensures months - 0.5 < 12.0 * Years(months) as real + RemainingMonths(months) as real <= months + 0.5
  {
    RemAfterYears(months);
  }

  /** A whole number of months splits exactly into years and months below 12. */
  lemma WholeMonths(n: nat)
    ensures Years(n as real) == n / 12
    ensures RemainingMonths(n as real) == n % 12
  {
    var q := n / 12;
    assert 12.0 * q as real <= n as real < 12.0 * q as real + 12.0;
    RemAfterYears(n as real);
  }

  /** Less than a year gives the months clause alone: 0 is "0 months". */
  lemma FormatZero()
    ensures FormatTimeperiod(0.0) == "0 months"
  {
    assert IntToString(0) == "0";
  }

  /** One month is singular: 1 is "1 month". */
  lemma FormatOne()
    ensures FormatTimeperiod(1.0) == "1 month"
  {
    assert IntToString(1) == "1";
  }

  /** Partial months round: 13.7 is "1 year and 2 months". */
  lemma FormatYearAndMonths()
    ensures FormatTimeperiod(13.7) == "1 year and 2 months"
  {
    assert Years(13.7) == 1;
    assert Rem(13.7, 12.0) == 1.7;
    assert RemainingMonths(13.7) == 2;
    assert IntToString(1) == "1";
    assert IntToString(2) == "2";
  }

  /** `formatTimeperiod(23.6)` is "1 year and 12 months": 23.6 % 12 = 11.6
      rounds to 12, which is not carried into the years. */
  lemma TwelveMonthsExample()
    ensures Years(23.6) == 1
    ensures RemainingMonths(23.6) == 12
    ensures FormatTimeperiod(23.6) == "1 year and 12 months"
  {
    assert Rem(23.6, 12.0) == 11.6;
    assert IntToString(1) == "1";
    assert IntToString(12) == "12";
  }

  // ---- rounding first ----

  /** The period with the rounding done before the split, so that a rounded-up
      twelfth month becomes a year. */
  function CarriedPeriod(months: real): (p: Period)
    ensures 0 <= p.months <= 11
    ensures 12 * p.years + p.months == Round(months)
  {
    var total := Round(months);
    Period(total / 12, total % 12)
  }

  /** The period text with the remaining months carried into the years. */
  function FormatTimeperiodCarried(months: real): string
  {
    var p := CarriedPeriod(months);
    FormatPeriod(p.years, p.months)
  }

  /** Rounding first reads back as a period with fewer than 12 months that adds
      up to the rounded count. */
  lemma ReadFormatTimeperiodCarried(months: real)
    ensures var p := ReadTimeperiod(FormatTimeperiodCarried(months));
            && p.Some?
            && 0 <= p.value.months <= 11
            && 12 * p.value.years + p.value.months == Round(months)
  {
    var c := CarriedPeriod(months);
    ReadFormatPeriod(c.years, c.months);
  }

  /** Whenever the remaining months stay below 12, rounding first gives the same
      text as `formatTimeperiod`. */
  lemma CarriedAgreesBelowTwelve(months: real)
    requires months >= 0.0 && RemainingMonths(months) < 12
    ensures FormatTimeperiodCarried(months) == FormatTimeperiod(months)
  {
    var y := Years(months);
    var r := RemainingMonths(months);
    RemAfterYears(months);
    TimeperiodAddsUp(months);
    assert Round(months) == 12 * y + r;
  }

  /** Rounding first turns 23.6 months into "2 years". */
  lemma CarriedExample()
    ensures CarriedPeriod(23.6) == Period(2, 0)
    ensures FormatTimeperiodCarried(23.6) == "2 years"
  {
    assert Round(23.6) == 24;
    assert IntToString(2) == "2";
  }
}

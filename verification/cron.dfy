/**
 * The cron explainer of src/components/SpringBootCronTool.tsx: a six-field
 * Spring cron expression (second, minute, hour, day of month, month, day of
 * week) is split on white space, each field is described on its own, and a
 * one-line summary is chosen from a fixed list of common shapes, with a
 * generic description when none fits.
 */
module Cron {
  import opened Optional
  import opened Numbers
  import opened Text

  /** The six fields, in order. */
  const FieldNames: seq<string> := ["Second", "Minute", "Hour", "Day", "Month", "Weekday"]

  const InvalidSummary: string := "Invalid: Spring Boot cron expressions must have exactly 6 fields"

  // ---- one field ----

  /** `parseField`: a wildcard, `?`, a step `a/b`, a range `a-b`, a list
      `a,b,...` or a literal value, tried in that order. */
  function ParseField(value: string, fieldType: string): string
  {
    var f := ToLowerAscii(fieldType);
    if value == "*" then "every " + f
    else if value == "?" then "any " + f
    else if '/' in value then
      var pieces := SplitOn(value, '/');
      var start := pieces[0];
      var step := pieces[1];
      "every " + step + " " + f + (if start != "*" then " starting from " + start else "")
    else if '-' in value then
      var pieces := SplitOn(value, '-');
      f + " " + pieces[0] + " through " + pieces[1]
    else if ',' in value then
      f + " " + Join(SplitOn(value, ','), ", ")
    else
      f + " " + value
  }

  /** A step `start/step` is described by its step and, unless the start is `*`,
      its start; a `-` in the start does not make it a range. */
  lemma ParseFieldStep(start: string, step: string, fieldType: string)
    requires '/' !in start && '/' !in step
    ensures ParseField(start + "/" + step, fieldType) ==
              "every " + step + " " + ToLowerAscii(fieldType)
              + (if start != "*" then " starting from " + start else "")
  {
    var v := start + "/" + step;
    assert v[|start|] == '/';
    SplitOnConcat(start, '/', step);
    SplitOnAbsent(start, '/');
    SplitOnAbsent(step, '/');
  }

  /** Pieces after a second `/` are ignored. */
  lemma ParseFieldStepIgnoresRest(start: string, step: string, rest: string, fieldType: string)
    requires '/' !in start && '/' !in step
    ensures ParseField(start + "/" + step + "/" + rest, fieldType) == ParseField(start + "/" + step, fieldType)
  {
    var v := start + "/" + step + "/" + rest;
    assert v[|start|] == '/';
    assert v == start + ['/'] + (step + ['/'] + rest);
    SplitOnConcat(start, '/', step + ['/'] + rest);
    SplitOnConcat(step, '/', rest);
    SplitOnAbsent(start, '/');
    SplitOnAbsent(step, '/');
    ParseFieldStep(start, step, fieldType);
  }

  /** A range `a-b` is described as "a through b". */
  lemma ParseFieldRange(a: string, b: string, fieldType: string)
    requires '/' !in a && '/' !in b && '-' !in a && '-' !in b
    ensures ParseField(a + "-" + b, fieldType) == ToLowerAscii(fieldType) + " " + a + " through " + b
  {
    var v := a + "-" + b;
    assert v[|a|] == '-';
    assert '/' !in v by {
      assert forall i :: 0 <= i < |v| ==> v[i] == '-' || v[i] in a || v[i] in b;
    }
    SplitOnConcat(a, '-', b);
    SplitOnAbsent(a, '-');
    SplitOnAbsent(b, '-');
  }

  /** A list is described with ", " in place of every ",". */
  lemma ParseFieldList(v: string, fieldType: string)
    requires ',' in v && '/' !in v && '-' !in v
    ensures ParseField(v, fieldType) == ToLowerAscii(fieldType) + " " + ReplaceChar(v, ',', ", ")
  {
    JoinSplitIsReplace(v, ',', ", ");
  }

  // ---- ordinal suffixes ----

  const Suffixes: seq<string> := ["th", "st", "nd", "rd"]

  /** `getOrdinalSuffix`: the suffix table looked up at `parseInt(num) % 100`;
      text without digits (`NaN`) yields `undefined` at every index and falls
      through to `suffix[0]`. */
  function GetOrdinalSuffix(num: string): string
  {
    match ParseInt(num)
    case None => Suffixes[0]
    case Some(n) => SuffixLookup(JsRem(n, 100))
  }

  /** `suffix[(v - 20) % 10] || suffix[v] || suffix[0]`: an index outside the
      four suffixes yields `undefined`, which falls through; `-0` indexes like `0`. */
  function SuffixLookup(v: int): string
  {
    var w := JsRem(v - 20, 10);
    if 0 <= w < |Suffixes| then Suffixes[w]
    else if 0 <= v < |Suffixes| then Suffixes[v]
    else Suffixes[0]
  }

  /** The English ordinal suffix: "th" for 11, 12 and 13 (after any hundreds),
      otherwise by the last digit 1 "st", 2 "nd", 3 "rd", else "th". */
  function EnglishOrdinalSuffix(n: nat): string
  {
    if 11 <= n % 100 <= 13 then "th"
    else if n % 10 == 1 then "st"
    else if n % 10 == 2 then "nd"
    else if n % 10 == 3 then "rd"
    else "th"
  }

  /** For a non-negative number the lookup table gives the English suffix;
      negative numbers and text without digits get "th". */
  lemma OrdinalSuffixIsEnglish(num: string)
    ensures GetOrdinalSuffix(num) ==
              match ParseInt(num)
              case Some(n) => if n >= 0 then EnglishOrdinalSuffix(n) else "th"
              case None => "th"
  {
    if ParseInt(num).Some? && ParseInt(num).value >= 0 {
      OrdinalSuffixOfNat(ParseInt(num).value);
    }
  }

  /** The table lookup on a non-negative number gives its English suffix. */
  lemma OrdinalSuffixOfNat(n: nat)
    ensures SuffixLookup(JsRem(n, 100)) == EnglishOrdinalSuffix(n)
  {
    assert JsRem(n, 100) == n % 100;
    EnglishSuffixOfLastTwo(n);
    SuffixLookupBelowHundred(n % 100);
  }

  /** The English suffix depends on the last two digits only. */
  lemma EnglishSuffixOfLastTwo(n: nat)
    ensures EnglishOrdinalSuffix(n) == EnglishOrdinalSuffix(n % 100)
  {
    var q := n / 100;
    var t := n % 100;
    assert n == 10 * (10 * q) + t;
    assert n % 10 == t % 10;
  }

  /** On the last two digits the table lookup agrees with the English suffix. */
  lemma SuffixLookupBelowHundred(v: nat)
    requires v < 100
    ensures SuffixLookup(v) == EnglishOrdinalSuffix(v)
  {
    if v >= 20 {
      SuffixLookupFromTwenty(v);
    } else {
      SuffixLookupBelowTwenty(v);
    }
  }

  /** From 20 on, `(v - 20) % 10` is the last digit, which indexes the table. */
  lemma SuffixLookupFromTwenty(v: nat)
    requires 20 <= v < 100
    ensures SuffixLookup(v) == EnglishOrdinalSuffix(v)
  {
    var d := v % 10;
    assert JsRem(v - 20, 10) == d;
    assert SuffixLookup(v) == if d < 4 then Suffixes[d] else "th";
    assert EnglishOrdinalSuffix(v) ==
      if d == 1 then "st" else if d == 2 then "nd" else if d == 3 then "rd" else "th";
  }

  /** Below 20, `(v - 20) % 10` is negative except at 0 and 10, where it is 0 and
      gives "th"; otherwise `v` itself indexes the table. */
  lemma SuffixLookupBelowTwenty(v: nat)
    requires v < 20
    ensures SuffixLookup(v) == EnglishOrdinalSuffix(v)
  {
    var w := JsRem(v - 20, 10);
    assert w == -((20 - v) % 10);
    assert w < 0 || v == 0 || v == 10;
    assert SuffixLookup(v) == if w == 0 || v >= 4 then "th" else Suffixes[v];
  }

  /** The suffix of a printed non-negative number is its English suffix. */
  lemma OrdinalSuffixOfNumber(n: nat)
    ensures GetOrdinalSuffix(IntToString(n)) == EnglishOrdinalSuffix(n)
  {
    ParseIntOfIntToString(n);
    OrdinalSuffixIsEnglish(IntToString(n));
  }

  // ---- month names ----

  const MonthNames: map<string, string> := map[
    "1" := "January", "2" := "February", "3" := "March", "4" := "April",
    "5" := "May", "6" := "June", "7" := "July", "8" := "August",
    "9" := "September", "10" := "October", "11" := "November", "12" := "December"]

  /** The months in calendar order. */
  const Calendar: seq<string> := [
    "January", "February", "March", "April", "May", "June",
    "July", "August", "September", "October", "November", "December"]

  /** `monthNames[month] || month`: the name of a month number written without
      a leading zero, and the field itself otherwise. */
  function MonthName(month: string): string
  {
    if month in MonthNames then MonthNames[month] else month
  }

  /** The month written as a plain number 1 to 12 is named by the calendar. */
  lemma MonthNameOfNumber(k: int)
    requires 1 <= k <= 12
    ensures MonthName(IntToString(k)) == Calendar[k - 1]
  {
    if k < 10 {
      assert IntToString(k) == [DigitChar(k)];
      assert DigitChar(k) == "123456789"[k - 1];
    } else {
      assert IntToString(k) == [DigitChar(1), DigitChar(k - 10)];
      assert DigitChar(1) == '1';
      assert DigitChar(k - 10) == "012"[k - 10];
    }
  }

  /** The table translates exactly the numbers 1 to 12 written without a
      leading zero; anything else (month abbreviations, "01") is shown as written. */
  lemma MonthNameKeys()
    ensures MonthNames.Keys == set k | 1 <= k <= 12 :: IntToString(k)
  {
    forall k | 1 <= k <= 12
      ensures IntToString(k) in MonthNames
    {
      MonthNameOfNumber(k);
    }
    forall month | month in MonthNames
      ensures exists k :: 1 <= k <= 12 && month == IntToString(k)
    {
      MonthKeysAreNumbers(month);
    }
  }

  /** Every key of the month table is a number from 1 to 12. */
  lemma MonthKeysAreNumbers(month: string)
    requires month in MonthNames
    ensures exists k :: 1 <= k <= 12 && month == IntToString(k)
  {
    var k := if month == "1" then 1 else if month == "2" then 2 else if month == "3" then 3
             else if month == "4" then 4 else if month == "5" then 5 else if month == "6" then 6
             else if month == "7" then 7 else if month == "8" then 8 else if month == "9" then 9
             else if month == "10" then 10 else if month == "11" then 11 else 12;
    MonthNameOfNumber(k);
  }

  // ---- the summary ----

  /** The six fields of an expression, in order. */
  datatype CronFields = CronFields(
    second: string, minute: string, hour: string, day: string, month: string, weekday: string)

  /** `x.split('/')[1]`: what follows the first `/` (up to a second one);
      without a `/` it is `undefined`, which a template prints as "undefined". */
  function Interval(x: string): string
  {
    var pieces := SplitOn(x, '/');
    if |pieces| >= 2 then pieces[1] else "undefined"
  }

  /** An interval with its ordinal suffix, as in "15th". */
  function Nth(interval: string): string
  {
    interval + GetOrdinalSuffix(interval)
  }

  /** The minute clause: "every minute" for `*`, "every Nth minute" for a step,
      and "minute M" otherwise. */
  function MinuteClause(minute: string): (c: string)
    ensures c != [] && (c[0] == 'e' || c[0] == 'm')
    ensures c == "every minute" <==> minute == "*"
    ensures c[0] == 'm' <==> minute != "*" && '/' !in minute
    ensures minute != "*" && '/' in minute ==> c == "every " + Nth(Interval(minute)) + " minute"
    ensures minute != "*" && '/' !in minute ==> c == "minute " + minute
  {
    if minute == "*" then "every minute"
    else if '/' in minute then "every " + Nth(Interval(minute)) + " minute"
    else "minute " + minute
  }

  /** `second !== '0'` gives "second S" first; the minute clause follows; an
      hour other than `*` gives "hour H" last. */
  function TimeParts(f: CronFields): (parts: seq<string>)
    ensures |parts| == (if f.second != "0" then 2 else 1) + (if f.hour != "*" then 1 else 0)
    ensures f.second != "0" <==> parts[0] == "second " + f.second
    ensures parts[if f.second != "0" then 1 else 0] == MinuteClause(f.minute)
    ensures f.hour != "*" <==> parts[|parts| - 1] == "hour " + f.hour
  {
    var sec := if f.second != "0" then ["second " + f.second] else [];
    var hr := if f.hour != "*" then ["hour " + f.hour] else [];
    var parts := sec + [MinuteClause(f.minute)] + hr;
    assert ("second " + f.second)[0] == 's';
    assert ("hour " + f.hour)[0] == 'h';
    assert |sec| == 1 ==> parts[0] == sec[0];
    assert parts[|sec|] == MinuteClause(f.minute);
    assert |hr| == 1 ==> parts[|parts| - 1] == hr[0];
    parts
  }

  /** The day of month, the month and the weekday that are not `*`, in that
      order, or "every day" when all three are. */
  function DayParts(f: CronFields): (parts: seq<string>)
    ensures |parts| == Max1((if f.day != "*" then 1 else 0) + (if f.month != "*" then 1 else 0)
                              + (if f.weekday != "*" then 1 else 0))
    ensures parts == ["every day"] <==> f.day == "*" && f.month == "*" && f.weekday == "*"
    ensures f.day != "*" <==> parts[0] == "day " + f.day + " of month"
    ensures f.month != "*" ==> parts[if f.day != "*" then 1 else 0] == "in " + MonthName(f.month)
    ensures f.weekday != "*" <==> parts[|parts| - 1] == "on " + f.weekday
  {
    var d := if f.day != "*" then ["day " + f.day + " of month"] else [];
    var m := if f.month != "*" then ["in " + MonthName(f.month)] else [];
    var w := if f.weekday != "*" then ["on " + f.weekday] else [];
    var parts := d + m + w;
    assert ("day " + f.day + " of month")[0] == 'd';
    assert ("in " + MonthName(f.month))[0] == 'i';
    assert ("on " + f.weekday)[0] == 'o';
    if |parts| == 0 then ["every day"]
    else
      assert |d| == 1 ==> parts[0] == d[0];
      assert |d| == 0 && |m| == 1 ==> parts[0] == m[0];
      assert |d| == 0 && |m| == 0 ==> parts[0] == w[0];
      assert |m| == 1 ==> parts[|d|] == m[0];
      assert |w| == 1 ==> parts[|parts| - 1] == w[0];
      assert |w| == 0 && |m| == 1 ==> parts[|parts| - 1] == m[0];
      assert |w| == 0 && |m| == 0 ==> parts[|parts| - 1] == d[0];
      parts
  }

  /** `n`, or 1 when `n` is 0: "every day" stands in for no day clause. */
  function Max1(n: nat): nat
  {
    if n == 0 then 1 else n
  }

  /** The generic description: "At " and then every time clause followed by
      every day clause, separated by ", ". */
  function GenericSummary(f: CronFields): (r: string)
    ensures r == "At " + Join(TimeParts(f) + DayParts(f), ", ")
  {
    var t := TimeParts(f);
    var d := DayParts(f);
    ClausesJoined(t, d);
    "At " + Join(t, ", ") + ", " + Join(d, ", ")
  }

  /** The time clauses and the day clauses, each joined, then joined by ", ",
      are all the clauses joined by ", ". */
  lemma ClausesJoined(t: seq<string>, d: seq<string>)
    requires |t| >= 1 && |d| >= 1
    ensures "At " + Join(t, ", ") + ", " + Join(d, ", ") == "At " + Join(t + d, ", ")
  {
    JoinAppend(t, d, ", ");
  }

  /** The summary of `explainCron`: the first common shape that fits, else the
      generic description. */
  function Summary(f: CronFields): string
  {
    if f.second == "0" && f.minute == "0" && f.hour == "*" && f.day == "*" && f.month == "*" && f.weekday == "*" then
      "At the start of every hour"
    else if f.second == "0" && f.minute == "0" && f.hour != "*" && f.day == "*" && f.month == "*" && f.weekday == "*" then
      "Every day at " + f.hour + ":00"
    else if f.second == "0" && '/' in f.minute && f.hour == "*" && f.day == "*" && f.month == "*" && f.weekday == "*" then
      "At every " + Nth(Interval(f.minute)) + " minute"
    else if f.second == "0" && '/' in f.minute && f.hour == "*" && f.day == "*" && f.month != "*" && f.weekday == "*" then
      "At every " + Nth(Interval(f.minute)) + " minute in " + MonthName(f.month)
    else if f.second == "0" && f.minute == "0" && '/' in f.hour && f.day == "*" && f.month != "*" && f.weekday == "*" then
      "At minute 0 past every " + Nth(Interval(f.hour)) + " hour in " + MonthName(f.month)
    else if f.second == "0" && f.minute == "0" && '/' in f.hour && f.day == "*" && f.month == "*" && f.weekday == "*" then
      "At minute 0 past every " + Nth(Interval(f.hour)) + " hour"
    else if f.second == "0" && f.minute == "0" && f.hour != "*" && f.day == "*" && f.month == "*" && f.weekday != "*" then
      "At " + f.hour + ":00 on " + f.weekday
    else if f.second == "0" && f.minute == "0" && f.hour == "0" && f.day == "1" && f.month == "*" && f.weekday == "*" then
      "At midnight on the first day of every month"
    else
      GenericSummary(f)
  }

  // ---- the common shapes as a table ----

  const RuleCount: nat := 8

  /** Whether common shape `k` (0 to 7, in the order they are tried) fits. */
  predicate RuleHolds(k: nat, f: CronFields)
  {
    var wild := f.day == "*" && f.weekday == "*";
    f.second == "0" &&
    match k
    case 0 => f.minute == "0" && f.hour == "*" && wild && f.month == "*"
    case 1 => f.minute == "0" && f.hour != "*" && wild && f.month == "*"
    case 2 => '/' in f.minute && f.hour == "*" && wild && f.month == "*"
    case 3 => '/' in f.minute && f.hour == "*" && wild && f.month != "*"
    case 4 => f.minute == "0" && '/' in f.hour && wild && f.month != "*"
    case 5 => f.minute == "0" && '/' in f.hour && wild && f.month == "*"
    case 6 => f.minute == "0" && f.hour != "*" && f.day == "*" && f.month == "*" && f.weekday != "*"
    case 7 => f.minute == "0" && f.hour == "0" && f.day == "1" && f.month == "*" && f.weekday == "*"
    case _ => false
  }

  /** The text of common shape `k`. */
  function RuleSummary(k: nat, f: CronFields): string
  {
    match k
    case 0 => "At the start of every hour"
    case 1 => "Every day at " + f.hour + ":00"
    case 2 => "At every " + Nth(Interval(f.minute)) + " minute"
    case 3 => "At every " + Nth(Interval(f.minute)) + " minute in " + MonthName(f.month)
    case 4 => "At minute 0 past every " + Nth(Interval(f.hour)) + " hour in " + MonthName(f.month)
    case 5 => "At minute 0 past every " + Nth(Interval(f.hour)) + " hour"
    case 6 => "At " + f.hour + ":00 on " + f.weekday
    case _ => "At midnight on the first day of every month"
  }

  /** The first shape from `i` on that fits, or `RuleCount` when none does. */
  function FirstRule(f: CronFields, i: nat): (k: nat)
    requires i <= RuleCount
    ensures i <= k <= RuleCount
    ensures k < RuleCount ==> RuleHolds(k, f)
    ensures forall j :: i <= j < k ==> !RuleHolds(j, f)
    decreases RuleCount - i
  {
    if i == RuleCount then RuleCount
    else if RuleHolds(i, f) then i
    else FirstRule(f, i + 1)
  }

  /** The summary is the text of the first fitting shape; the first match wins. */
  lemma SummaryIsFirstRule(f: CronFields)
    ensures var k := FirstRule(f, 0);
            Summary(f) == if k < RuleCount then RuleSummary(k, f) else GenericSummary(f)
  {
  }

  /** Shape 5 ("At minute 0 past every Nth hour") never fires: every expression
      it fits is taken first by shape 1 ("Every day at H:00"). */
  lemma HourStepShapeUnreachable(f: CronFields)
    ensures RuleHolds(5, f) ==> RuleHolds(1, f)
    ensures FirstRule(f, 0) != 5
  {
  }

  /** Three of the common shapes on their examples: "0 0 * * * *", "0 0 0 1 * *",
      and a minute step with every other field `0` or `*`. */
  lemma CommonShapeExamples(step: string)
    requires '/' !in step
    ensures Summary(CronFields("0", "0", "*", "*", "*", "*")) == "At the start of every hour"
    ensures Summary(CronFields("0", "0", "0", "1", "*", "*")) == "At midnight on the first day of every month"
    ensures Summary(CronFields("0", "*" + "/" + step, "*", "*", "*", "*")) == "At every " + Nth(step) + " minute"
  {
    var m := "*" + "/" + step;
    assert m[1] == '/';
    IntervalOfStep("*", step);
  }

  // 30 takes "th", so "0 */30 * * * *" reads "At every 30th minute".
  lemma ThirtiethSuffix()
    ensures Nth("30") == "30th"
  {
    OrdinalSuffixOfNumber(30);
    assert IntToString(30) == "30";
  }

  /** A minute `start/step` reads "every Nth minute" with the step as N. */
  lemma StepMinuteClause(start: string, step: string)
    requires '/' !in start && '/' !in step
    ensures MinuteClause(start + "/" + step) == "every " + Nth(step) + " minute"
  {
    var m := start + "/" + step;
    IntervalOfStep(start, step);
    assert m[|start|] == '/';
    assert m != "*";
  }

  // "0 0 */2 * * *" is summarised as "Every day at */2:00".
  lemma EveryOtherHourExample()
    ensures Summary(CronFields("0", "0", "*/2", "*", "*", "*")) == "Every day at */2:00"
  {
  }

  // ---- with the hour step checked first ----

  /** The summary with shape 5 tried before shape 1, so that an hour step is
      described as one. */
  function SummaryHourStepFirst(f: CronFields): string
  {
    if RuleHolds(5, f) then RuleSummary(5, f) else Summary(f)
  }

  /** With shape 5 first, an hour step with every other field `0` or `*` is
      described as a step, and every other expression is summarised as before. */
  lemma HourStepFirstDescribesStep(f: CronFields)
    ensures RuleHolds(5, f) ==>
              SummaryHourStepFirst(f) == "At minute 0 past every " + Nth(Interval(f.hour)) + " hour"
    ensures !RuleHolds(5, f) ==> SummaryHourStepFirst(f) == Summary(f)
    ensures '/' !in f.hour ==> SummaryHourStepFirst(f) == Summary(f)
  {
  }

  /** With shape 5 first, an hour step `*` + "/" + `step` with the other fields
      `0` or `*` is read as "every Nth hour". */
  lemma EveryNthHourStepFirst(step: string)
    requires '/' !in step
    ensures SummaryHourStepFirst(CronFields("0", "0", "*" + "/" + step, "*", "*", "*")) ==
              "At minute 0 past every " + Nth(step) + " hour"
  {
    var f := CronFields("0", "0", "*" + "/" + step, "*", "*", "*");
    assert f.hour[1] == '/';
    HourStepFirstDescribesStep(f);
    IntervalOfStep("*", step);
  }

  /** A number written out takes its English ordinal suffix, so that a step
      of 2 reads "2nd" and one of 30 reads "30th". */
  lemma NthOfNumber(n: nat)
    ensures Nth(IntToString(n)) == IntToString(n) + EnglishOrdinalSuffix(n)
  {
    OrdinalSuffixOfNumber(n);
  }

  /** The interval of `start/step` is `step`. */
  lemma IntervalOfStep(start: string, step: string)
    requires '/' !in start && '/' !in step
    ensures Interval(start + "/" + step) == step
  {
    SplitOnConcat(start, '/', step);
    SplitOnAbsent(start, '/');
    SplitOnAbsent(step, '/');
  }

  // ---- the whole expression ----

  /** What `explainCron` returns. */
  datatype Explanation = Explanation(summary: string, breakdown: seq<string>, isValid: bool)

  /** "Name: description" for field `i`. */
  function BreakdownLine(i: nat, part: string): string
    requires i < |FieldNames|
  {
    FieldNames[i] + ": " + ParseField(part, FieldNames[i])
  }

  /** The fields of a six-part expression. */
  function FieldsOf(parts: seq<string>): CronFields
    requires |parts| == 6
  {
    CronFields(parts[0], parts[1], parts[2], parts[3], parts[4], parts[5])
  }

  /** `explainCron`: the trimmed expression split on runs of white space must
      have exactly six parts. */
  function ExplainCron(cron: string): (e: Explanation)
    ensures e.isValid <==> |Tokens(cron)| == 6
    ensures !e.isValid ==> e.summary == InvalidSummary && e.breakdown == []
    ensures e.isValid ==>
              && |e.breakdown| == 6
              && (forall i :: 0 <= i < 6 ==> e.breakdown[i] == BreakdownLine(i, Tokens(cron)[i]))
              && e.summary == Summary(FieldsOf(Tokens(cron)))
  {
    var parts := Tokens(cron);
    if |parts| != 6 then Explanation(InvalidSummary, [], false)
    else
      var breakdown := seq(6, i requires 0 <= i < 6 => BreakdownLine(i, parts[i]));
      Explanation(Summary(FieldsOf(parts)), breakdown, true)
  }

  /** Words separated by single spaces form a valid expression exactly when
      there are six of them, and then they are its fields. */
  lemma ExplainCronOfWords(ws: seq<string>)
    requires |ws| >= 1
    requires forall i :: 0 <= i < |ws| ==> IsWord(ws[i])
    ensures ExplainCron(Join(ws, " ")).isValid <==> |ws| == 6
    ensures |ws| == 6 ==>
              && ExplainCron(Join(ws, " ")).summary == Summary(FieldsOf(ws))
              && (forall i :: 0 <= i < 6 ==> ExplainCron(Join(ws, " ")).breakdown[i] == BreakdownLine(i, ws[i]))
  {
    TokensOfJoin(ws);
  }

  /** The explanation depends only on the words: collapsing the white space
      between them, and around them, changes nothing. */
  lemma ExplainCronNormalizes(cron: string)
    requires exists i :: 0 <= i < |cron| && !IsSpace(cron[i])
    ensures ExplainCron(Join(Tokens(cron), " ")) == ExplainCron(cron)
  {
    TokensAreWords(cron);
    TokensOfJoin(Tokens(cron));
  }

  /** A blank expression is invalid. */
  lemma ExplainCronBlank(cron: string)
    requires forall i :: 0 <= i < |cron| ==> IsSpace(cron[i])
    ensures ExplainCron(cron) == Explanation(InvalidSummary, [], false)
  {
    TokensOfBlank(cron);
  }
}
